/** What survives: the log files, the tables and the manifest on disk, the memtables and the current
    version in memory, and the steps that move writes between them, with a crash possible between any
    two.  Each method is one step; they may be taken in any order that their guards allow. */
module Durability {
  import opened InternalKeys

  /** A batch of updates, named. */
  type Write = nat

  /** A log file: the records in it, and how many of them are known to be on the disk itself. */
  datatype LogFile = LogFile(writes: seq<Write>, synced: nat)

  /** What the manifest says: the oldest log still needed, the tables, and a bound of file numbers. */
  datatype Manifest = Manifest(logNumber: nat, files: set<nat>, next: nat)

  datatype Opening = Down | Replayed(n: nat, newLog: nat) | OpenCommit(n: nat, newLog: nat)

  datatype Flush = NoFlush | Building(n: nat) | Built(n: nat) | FlushCommit(n: nat, bound: nat)

  datatype Compaction =
    | NoCompaction
    | Compacting(inputs: set<nat>, outputs: set<nat>)
    | CompactionCommit(inputs: set<nat>, outputs: set<nat>, bound: nat)

  /** A table stands for the writes it was built from; a compaction leaves out entries of its inputs only
      when no read can see them, so its outputs stand for the writes of its inputs. */
  type Tables = map<nat, set<Write>>

  ghost predicate InTables(tables: Tables, files: set<nat>, w: Write) {
    exists f :: f in files && f in tables && w in tables[f]
  }

  ghost predicate InLogs(logs: map<nat, LogFile>, from: nat, w: Write) {
    exists k :: k in logs && k >= from && w in logs[k].writes
  }

  ghost predicate SyncedIn(log: LogFile, w: Write) {
    exists i :: 0 <= i < log.synced && i < |log.writes| && log.writes[i] == w
  }

  ghost predicate InSyncedLogs(logs: map<nat, LogFile>, from: nat, w: Write) {
    exists k :: k in logs && k >= from && SyncedIn(logs[k], w)
  }

  /** With this manifest, every one of some writes is in a table or in a log that will be read. */
  ghost predicate Covers(m: Manifest, tables: Tables, logs: map<nat, LogFile>, ws: set<Write>) {
    forall w :: w in ws ==> InTables(tables, m.files, w) || InLogs(logs, m.logNumber, w)
  }

  /** The same for what a crash of the machine leaves. */
  ghost predicate CoversSynced(m: Manifest, tables: Tables, logs: map<nat, LogFile>, ws: set<Write>) {
    forall w :: w in ws ==> InTables(tables, m.files, w) || InSyncedLogs(logs, m.logNumber, w)
  }

  /** Logs older than the current one hold nothing that is not in the immutable memtable or in a table. */
  ghost predicate OldLogsDone(m: Manifest, tables: Tables, logs: map<nat, LogFile>, memLog: nat, imm: set<Write>) {
    forall k, w :: k in logs && m.logNumber <= k < memLog && w in logs[k].writes ==> w in imm || InTables(tables, m.files, w)
  }

  function Edited(m: Manifest, logNumber: nat, removed: set<nat>, added: set<nat>, next: nat): Manifest {
    Manifest(logNumber, m.files - removed + added, next)
  }

  /** What the manifest may say while a record is being added to it. */
  ghost function WithEdit(base: set<Manifest>, logNumber: nat, removed: set<nat>, added: set<nat>, next: nat): set<Manifest> {
    set m | m in base :: Edited(m, logNumber, removed, added, next)
  }

  /** Some tables together stand for all that others stand for. */
  ghost predicate StandFor(tables: Tables, inputs: set<nat>, outputs: set<nat>) {
    forall w :: InTables(tables, inputs, w) ==> InTables(tables, outputs, w)
  }

  ghost predicate ManifestOk(m: Manifest, tables: Tables, logs: map<nat, LogFile>, ackedSync: set<Write>) {
    && m.files <= tables.Keys && (forall f :: f in m.files ==> f < m.next) && m.logNumber < m.next
    && CoversSynced(m, tables, logs, ackedSync)
  }

  ghost predicate ManifestFits(m: Manifest, tables: Tables, logs: map<nat, LogFile>, acked: set<Write>,
                               memLog: nat, imm: set<Write>, next: nat) {
    && m.next <= next && m.logNumber <= memLog
    && Covers(m, tables, logs, acked) && OldLogsDone(m, tables, logs, memLog, imm)
  }

  ghost predicate AllOk(ms: set<Manifest>, tables: Tables, logs: map<nat, LogFile>, ackedSync: set<Write>) {
    forall m :: m in ms ==> ManifestOk(m, tables, logs, ackedSync)
  }

  ghost predicate AllFit(ms: set<Manifest>, tables: Tables, logs: map<nat, LogFile>, acked: set<Write>,
                         memLog: nat, imm: set<Write>, next: nat) {
    forall m :: m in ms ==> ManifestFits(m, tables, logs, acked, memLog, imm, next)
  }

  ghost predicate AllHave(ms: set<Manifest>, files: set<nat>) {
    forall m :: m in ms ==> files <= m.files
  }

  ghost predicate AllLack(ms: set<Manifest>, files: set<nat>) {
    forall m :: m in ms ==> files !! m.files
  }

  ghost predicate LogsOk(logs: map<nat, LogFile>) {
    forall k :: k in logs ==> logs[k].synced <= |logs[k].writes|
  }

  /** Nothing was made up: what is in a log or a table was appended once. */
  ghost predicate AllMade(logs: map<nat, LogFile>, tables: Tables, made: set<Write>) {
    && (forall k, w :: k in logs && w in logs[k].writes ==> w in made)
    && (forall n, w :: n in tables && w in tables[n] ==> w in made)
  }

  lemma MadeAppended(logs: map<nat, LogFile>, logs': map<nat, LogFile>, tables: Tables, made: set<Write>, k: nat, w: Write)
    requires AllMade(logs, tables, made) && k in logs && k in logs' && logs' == logs[k := logs'[k]]
    requires logs'[k].writes == logs[k].writes + [w]
    ensures AllMade(logs', tables, made + {w})
  {
  }

  lemma MadeNewLog(logs: map<nat, LogFile>, tables: Tables, made: set<Write>, k: nat)
    requires AllMade(logs, tables, made)
    ensures AllMade(logs[k := LogFile([], 0)], tables, made)
  {
  }

  lemma MadeNewTable(logs: map<nat, LogFile>, tables: Tables, made: set<Write>, n: nat, ws: set<Write>)
    requires AllMade(logs, tables, made) && ws <= made
    ensures AllMade(logs, tables[n := ws], made)
  {
  }

  lemma MadeFewer(logs: map<nat, LogFile>, tables: Tables, made: set<Write>, ks: set<nat>, ns: set<nat>)
    requires AllMade(logs, tables, made)
    ensures AllMade(logs - ks, tables, made) && AllMade(logs, tables - ns, made)
  {
  }

  /** The write is in one of these logs, from a number on. */
  ghost predicate InListed(logs: map<nat, LogFile>, files: seq<nat>, from: nat, w: Write) {
    exists j :: 0 <= j < |files| && files[j] >= from && files[j] in logs && w in logs[files[j]].writes
  }

  lemma NoneListed(logs: map<nat, LogFile>, files: seq<nat>, from: nat)
    ensures forall w :: !InListed(logs, files[..0], from, w)
  {
  }

  lemma MadeByReplay(logs: map<nat, LogFile>, tables: Tables, made: set<Write>, from: nat, replayed: set<Write>, n: nat)
    requires AllMade(logs, tables, made) && forall w :: w in replayed <==> InLogs(logs, from, w)
    ensures AllMade(logs[n + 1 := LogFile([], 0)], tables[n := replayed], made) && replayed <= made
  {
  }

  lemma ListedAreAll(logs: map<nat, LogFile>, files: seq<nat>, from: nat)
    requires forall k :: k in files <==> k in logs
    ensures forall w :: InListed(logs, files, from, w) <==> InLogs(logs, from, w)
  {
    forall w | InLogs(logs, from, w) ensures InListed(logs, files, from, w) {
      var k :| k in logs && k >= from && w in logs[k].writes;
      var j :| 0 <= j < |files| && files[j] == k;
    }
  }

  lemma OneMoreListed(logs: map<nat, LogFile>, files: seq<nat>, i: nat, from: nat)
    requires i < |files| && files[i] in logs
    ensures forall w :: InListed(logs, files[..i + 1], from, w) <==>
        InListed(logs, files[..i], from, w) || (files[i] >= from && w in logs[files[i]].writes)
  {
    var more, less := files[..i + 1], files[..i];
    forall w | InListed(logs, less, from, w) ensures InListed(logs, more, from, w) {
      var j :| 0 <= j < |less| && less[j] >= from && less[j] in logs && w in logs[less[j]].writes;
      assert more[j] == less[j];
    }
    forall w | InListed(logs, more, from, w) ensures InListed(logs, less, from, w) || (files[i] >= from && w in logs[files[i]].writes) {
      var j :| 0 <= j < |more| && more[j] >= from && more[j] in logs && w in logs[more[j]].writes;
      assert j < i ==> less[j] == more[j];
    }
    assert more[i] == files[i];
  }

  class Store {
    // On disk
    var logs: map<nat, LogFile>
    var tables: Tables
    ghost var possible: set<Manifest>  // what the manifest may say, as far as one can know
    ghost var base: set<Manifest>      // what it could say before the record being added

    // In memory
    var running: bool
    var opening: Opening
    var replayed: set<Write>
    var current: Manifest              // the current version and the log number that goes with it
    var next: nat                      // the next file number
    var memLog: nat
    var mem: set<Write>
    var imm: Option<set<Write>>
    var pending: set<nat>              // tables being built
    var pinned: seq<set<nat>>          // versions that readers hold on to
    var flush: Flush
    var compaction: Compaction
    var bgError: bool
    ghost var written: set<nat>        // outputs of the compaction that are complete

    // Promises
    ghost var acked: set<Write>        // acknowledged since the last crash, or with sync before it
    ghost var ackedSync: set<Write>    // acknowledged with sync
    ghost var made: set<Write>         // appended ever

    /** Whatever the manifest says, its tables are there, and with the logs that it wants read they hold
        every write that was acknowledged with sync. */
    ghost predicate DiskOk()
      reads this`logs, this`tables, this`ackedSync, this`possible
    {
      && possible != {} && LogsOk(logs)
      && AllOk(possible, tables, logs, ackedSync)
    }

    ghost function Imm(): set<Write>
      reads this`imm
    {
      if imm.Some? then imm.value else {}
    }

    /** Whatever the manifest says, what is on disk holds every acknowledged write. */
    ghost predicate MemoryOk()
      reads this`logs, this`tables, this`acked, this`possible, this`memLog, this`mem, this`imm, this`next
    {
      && AllFit(possible, tables, logs, acked, memLog, Imm(), next)
      && memLog in logs && memLog < next && (forall k :: k in logs ==> k <= memLog)
      && (forall w :: w in logs[memLog].writes ==> w in mem)
    }

    ghost predicate Committing()
      reads this`flush, this`compaction
    {
      flush.FlushCommit? || compaction.CompactionCommit?
    }

    /** The current version is what the manifest says, unless a record of it is being written or could not
        be; then the manifest may say more. */
    ghost predicate CurrentOk()
      reads this`current, this`possible, this`base, this`bgError, this`flush, this`compaction
    {
      && current in base && base <= possible
      && (!Committing() ==> base == possible)
      && (!bgError ==> base == {current})
      && (!bgError || compaction.Compacting? ==> AllHave(base, current.files))
    }

    ghost predicate FilesOk()
      reads this`tables, this`pending, this`pinned, this`next
    {
      && (forall f :: f in pending ==> f < next)
      && (forall i :: 0 <= i < |pinned| ==> pinned[i] <= tables.Keys)
    }

    ghost predicate FlushOk()
      reads this`flush, this`imm, this`tables, this`pending, this`possible, this`base, this`next, this`memLog, this`compaction, this`bgError
    {
      && (flush != NoFlush ==> imm.Some? && (!bgError || compaction.Compacting?) && !compaction.CompactionCommit?)
      && match flush
         case NoFlush => true
         case Building(n) => n in pending && n !in Outputs() && AllLack(possible, {n})
         case Built(n) => n < next && n !in Outputs() && n in tables && imm.value <= tables[n]
         case FlushCommit(n, bound) =>
           && n < bound <= next && n in tables && imm.value <= tables[n]
           && possible == base + WithEdit(base, memLog, {}, {n}, bound)
    }

    ghost function Outputs(): set<nat>
      reads this`compaction
    {
      if compaction.NoCompaction? then {} else compaction.outputs
    }

    ghost predicate CompactionOk()
      reads this`compaction, this`written, this`tables, this`pending, this`current, this`possible, this`base, this`next
    {
      match compaction
      case NoCompaction => true
      case Compacting(inputs, outputs) =>
        && inputs <= current.files && outputs <= pending && AllLack(possible, outputs)
        && written <= outputs && written <= tables.Keys
      case CompactionCommit(inputs, outputs, bound) =>
        && inputs <= current.files && outputs <= pending && outputs <= tables.Keys && StandFor(tables, inputs, outputs)
        && bound <= next && possible == base + WithEdit(base, current.logNumber, inputs, outputs, bound)
    }

    ghost predicate OpeningOk()
      reads this`opening, this`tables, this`logs, this`current, this`possible, this`next, this`replayed
    {
      && current in possible
      && match opening
         case Down => possible == {current}
         case Replayed(n, newLog) => possible == {current} && RecoveredIn(n, newLog)
         case OpenCommit(n, newLog) => possible == {current, Edited(current, newLog, {}, {n}, next)} && RecoveredIn(n, newLog)
    }

    /** All that the logs hold is in a new table, and a new log waits. */
    ghost predicate RecoveredIn(n: nat, newLog: nat)
      reads this`tables, this`logs, this`current, this`next, this`replayed
    {
      && n < next && newLog < next && n in tables && tables[n] == replayed && n !in current.files && current.next <= next
      && newLog in logs && logs[newLog].writes == [] && (forall k :: k in logs ==> k <= newLog) && current.logNumber <= newLog
      && (forall w :: InLogs(logs, current.logNumber, w) <==> w in replayed)
    }

    ghost predicate Inv()
      reads this
    {
      && DiskOk() && Genuine()
      && (running ==> MemoryOk() && CurrentOk() && FilesOk() && FlushOk() && CompactionOk())
      && (!running ==> OpeningOk() && acked == ackedSync)
    }

    ghost predicate Genuine()
      reads this`logs, this`tables, this`mem, this`imm, this`replayed, this`made
    {
      AllMade(logs, tables, made) && mem <= made && Imm() <= made && replayed <= made
    }

    lemma LogsAreOk()
      requires Inv()
      ensures forall k :: k in logs ==> logs[k].synced <= |logs[k].writes|
    {
    }

    lemma CurrentPossible()
      requires Inv() && running
      ensures current in possible
    {
    }

    /** What can be read was once appended. */
    lemma NothingIsInvented(w: Write)
      requires Inv() && (w in mem || w in Imm() || InTables(tables, current.files, w) || InLogs(logs, 0, w))
      ensures w in made
    {
      hide DiskOk, MemoryOk, CurrentOk, FilesOk, FlushOk, CompactionOk, OpeningOk;
    }

    /** Every acknowledged write is in a table of the current version or in a log that recovery will read;
        and it can be read, from a memtable or from the version. */
    lemma NothingIsLost(w: Write)
      requires Inv() && running && w in acked
      ensures InTables(tables, current.files, w) || InLogs(logs, current.logNumber, w)
      ensures w in mem || w in Imm() || InTables(tables, current.files, w)
    {
      hide DiskOk, FilesOk, FlushOk, CompactionOk, InTables;
      assert ManifestFits(current, tables, logs, acked, memLog, Imm(), next);
      if !InTables(tables, current.files, w) {
        var k :| k in logs && k >= current.logNumber && w in logs[k].writes;
        assert k == memLog || k < memLog;
      }
    }

    // ----- Writers -----

    /** Append a write to the current log and insert it into the memtable, and acknowledge it. */
    method Append(w: Write, sync: bool)
      requires Inv() && running
      modifies this`logs, this`mem, this`acked, this`ackedSync, this`made
      ensures Inv() && mem == old(mem) + {w} && made == old(made) + {w}
      ensures acked == old(acked) + {w} && ackedSync == if sync then old(ackedSync) + {w} else old(ackedSync)
      ensures logs == Grown(old(logs), memLog, w, sync)
    {
      hide AllOk, AllFit, LogsOk, FlushOk, CompactionOk, FilesOk, CurrentOk, OpeningOk, AllMade, Grown;
      LogSizes();
      ghost var grown := Grown(logs, memLog, w, sync);
      MadeAppended(logs, grown, tables, made, memLog, w);
      AppendKeepsAll(possible, tables, logs, grown, acked, ackedSync, memLog, Imm(), next, w, sync);
      Acknowledge(w, sync);
    }

    method Acknowledge(w: Write, sync: bool)
      requires memLog in logs
      modifies this`logs, this`mem, this`acked, this`ackedSync, this`made
      ensures logs == Grown(old(logs), memLog, w, sync) && mem == old(mem) + {w} && made == old(made) + {w}
      ensures acked == old(acked) + {w} && ackedSync == if sync then old(ackedSync) + {w} else old(ackedSync)
    {
      var writes := logs[memLog].writes + [w];
      logs := logs[memLog := LogFile(writes, if sync then |writes| else logs[memLog].synced)];
      mem := mem + {w};
      acked, made := acked + {w}, made + {w};
      if sync {
        ackedSync := ackedSync + {w};
      }
    }

    lemma LogSizes()
      requires Inv() && running
      ensures memLog in logs && logs[memLog].synced <= |logs[memLog].writes|
    {
    }

    /** Turn the memtable into an immutable one, with a new log for the next. */
    method SwitchMemTable()
      requires Inv() && running && imm.None? && !bgError
      modifies this`logs, this`next, this`memLog, this`mem, this`imm
      ensures Inv() && imm == Some(old(mem)) && mem == {} && memLog == old(next) && next == old(next) + 1
      ensures logs == old(logs)[memLog := LogFile([], 0)]
    {
      hide ManifestOk, ManifestFits, LogsOk, StandFor, WithEdit, InLogs, InSyncedLogs, AllMade;
      ghost var was := logs;
      MadeNewLog(logs, tables, made, next);
      var newLog := next;
      next := next + 1;
      logs := logs[newLog := LogFile([], 0)];
      imm := Some(mem);
      mem := {};
      ghost var oldLog := memLog;
      memLog := newLog;
      NewLog(was, logs, newLog);
      forall m | m in possible
        ensures ManifestOk(m, tables, logs, ackedSync) && ManifestFits(m, tables, logs, acked, memLog, Imm(), next)
      {
        SwitchKeeps(m, tables, was, logs, acked, ackedSync, oldLog, newLog, old(mem), old(next));
      }
    }

    // ----- Flushing the immutable memtable -----

    /** Start a table for the immutable memtable. */
    method FlushBegin()
      requires Inv() && running && imm.Some? && flush == NoFlush && !compaction.CompactionCommit?
      requires !bgError || compaction.Compacting?
      modifies this`next, this`pending, this`flush
      ensures Inv() && flush == Building(old(next)) && pending == old(pending) + {old(next)} && next == old(next) + 1
    {
      FilesBelow();
      hide ManifestOk, LogsOk, Covers, OldLogsDone;
      flush := Building(next);
      pending := pending + {next};
      next := next + 1;
    }

    lemma FilesBelow()
      requires Inv() && running
      ensures forall m, f :: m in possible && f in m.files ==> f < next
    {
    }

    /** Write the table, or fail to.  It is no longer pending either way. */
    method FlushBuild(ok: bool)
      requires Inv() && running && flush.Building?
      modifies this`tables, this`pending, this`flush, this`bgError
      ensures Inv() && pending == old(pending) - {old(flush).n}
      ensures if ok then flush == Built(old(flush).n) && bgError == old(bgError) else flush == NoFlush && bgError
      ensures imm.Some? && tables == if ok then old(tables)[old(flush).n := imm.value] else old(tables)
    {
      var n := flush.n;
      pending := pending - {n};
      if ok {
        ghost var was := tables;
        tables := tables[n := imm.value];
        flush := Built(n);
        NewTable(was, tables, n, imm.value);
        forall m | m in possible
          ensures ManifestOk(m, tables, logs, ackedSync) && ManifestFits(m, tables, logs, acked, memLog, Imm(), next)
        {
          TablesKeep(m, was, tables, logs, acked, ackedSync, memLog, Imm(), next);
        }
      } else {
        flush := NoFlush;
        bgError := true;
      }
    }

    /** Start to add the table to the manifest, and to give up the logs before the current one. */
    method FlushCommitBegin()
      requires Inv() && running && flush.Built?
      modifies this`possible, this`flush
      ensures Inv() && flush == FlushCommit(old(flush).n, next)
      ensures possible == base + WithEdit(base, memLog, {}, {old(flush).n}, next)
    {
      hide ManifestOk, ManifestFits, LogsOk, FilesOk, StandFor;
      var n := flush.n;
      flush := FlushCommit(n, next);
      possible := base + WithEdit(base, memLog, {}, {n}, next);
      forall m | m in base
        ensures var e := Edited(m, memLog, {}, {n}, next);
            ManifestOk(e, tables, logs, ackedSync) && ManifestFits(e, tables, logs, acked, memLog, Imm(), next)
      {
        FlushEditKeeps(m, tables, logs, acked, ackedSync, memLog, imm.value, n, next);
      }
    }

    /** The manifest record is on disk: the memtable is in the current version. */
    method FlushCommitted()
      requires Inv() && running && flush.FlushCommit?
      modifies this`possible, this`base, this`current, this`imm, this`flush
      ensures Inv() && flush == NoFlush && imm == None
      ensures current == Edited(old(current), memLog, {}, {old(flush).n}, old(flush).bound)
      ensures possible == base == WithEdit(old(base), memLog, {}, {old(flush).n}, old(flush).bound)
    {
      hide AllOk, AllFit, AllHave, AllLack, LogsOk, FilesOk, StandFor, WithEdit;
      var n, bound := flush.n, flush.bound;
      ghost var edited := WithEdit(base, memLog, {}, {n}, bound);
      var committed := Edited(current, memLog, {}, {n}, bound);
      FewerOk(possible, edited, tables, logs, acked, ackedSync, memLog, Imm(), next, Outputs());
      EditedAlike(base, current, memLog, {}, {n}, bound);
      FlushedFit(edited, tables, logs, acked, memLog, Imm(), next);
      hide Edited;
      possible, base, current := edited, edited, committed;
      imm := None;
      flush := NoFlush;
    }

    /** A whole flush that goes well. */
    method FlushWhole() returns (ghost n: nat)
      requires Inv() && running && imm.Some? && flush == NoFlush && !compaction.CompactionCommit? && !bgError
      modifies this`next, this`pending, this`flush, this`tables, this`bgError, this`possible, this`base, this`current, this`imm
      ensures Inv() && flush == NoFlush && imm == None && !bgError && n == old(next)
      ensures old(imm).Some? && tables == old(tables)[n := old(imm).value]
      ensures current == Edited(old(current), memLog, {}, {n}, old(next) + 1)
    {
      hide DiskOk, MemoryOk, CurrentOk, FilesOk, FlushOk, CompactionOk, Genuine, OpeningOk, Inv;
      FlushBegin();
      n := flush.n;
      FlushBuild(true);
      FlushCommitBegin();
      FlushCommitted();
    }

    /** Nobody knows whether the manifest record is on disk. */
    method FlushNotCommitted()
      requires Inv() && running && flush.FlushCommit?
      modifies this`base, this`flush, this`bgError
      ensures Inv() && flush == NoFlush && bgError && base == possible
    {
      hide AllOk, AllFit, AllHave, AllLack, LogsOk, FilesOk, StandFor, WithEdit;
      EditedAlike(base, current, memLog, {}, {flush.n}, flush.bound);
      BothHave(base, WithEdit(base, memLog, {}, {flush.n}, flush.bound), current.files);
      bgError := true;
      base := possible;
      flush := NoFlush;
    }

    // ----- Compacting -----

    /** Choose some tables of the current version. */
    method CompactionBegin(inputs: set<nat>)
      requires Inv() && running && compaction == NoCompaction && flush == NoFlush && !bgError && inputs <= current.files
      modifies this`compaction, this`written
      ensures Inv() && compaction == Compacting(inputs, {}) && written == {}
    {
      compaction, written := Compacting(inputs, {}), {};
    }

    /** Open an output table. */
    method CompactionOpen()
      requires Inv() && running && compaction.Compacting? && flush == NoFlush
      modifies this`compaction, this`next, this`pending
      ensures Inv() && compaction == Compacting(old(compaction).inputs, old(compaction).outputs + {old(next)})
      ensures pending == old(pending) + {old(next)} && next == old(next) + 1
    {
      FilesBelow();
      hide ManifestOk, LogsOk, Covers, OldLogsDone;
      compaction := Compacting(compaction.inputs, compaction.outputs + {next});
      pending := pending + {next};
      next := next + 1;
    }

    /** Write an output table, of writes that the inputs hold. */
    method CompactionWrite(n: nat, ws: set<Write>)
      requires Inv() && running && compaction.Compacting? && flush == NoFlush && n in compaction.outputs
      requires forall w :: w in ws ==> InTables(tables, compaction.inputs, w)
      modifies this`tables, this`written
      ensures Inv() && tables == old(tables)[n := ws] && written == old(written) + {n}
    {
      hide ManifestOk, ManifestFits, LogsOk, StandFor;
      ghost var was := tables;
      tables, written := tables[n := ws], written + {n};
      NewTable(was, tables, n, ws);
      forall m | m in possible
        ensures ManifestOk(m, tables, logs, ackedSync) && ManifestFits(m, tables, logs, acked, memLog, Imm(), next)
      {
        TablesKeep(m, was, tables, logs, acked, ackedSync, memLog, Imm(), next);
      }
    }

    /** Start to record in the manifest that the outputs, which stand for all that the inputs do, replace
        them. */
    method CompactionCommitBegin()
      requires Inv() && running && compaction.Compacting? && flush == NoFlush
      requires compaction.outputs <= written && StandFor(tables, compaction.inputs, compaction.outputs)
      modifies this`possible, this`compaction
      ensures Inv() && compaction == CompactionCommit(old(compaction).inputs, old(compaction).outputs, next)
      ensures possible == base + WithEdit(base, current.logNumber, compaction.inputs, compaction.outputs, next)
    {
      hide ManifestOk, ManifestFits, LogsOk, StandFor;
      var inputs, outputs := compaction.inputs, compaction.outputs;
      compaction := CompactionCommit(inputs, outputs, next);
      possible := base + WithEdit(base, current.logNumber, inputs, outputs, next);
      forall e | e in possible
        ensures ManifestOk(e, tables, logs, ackedSync) && ManifestFits(e, tables, logs, acked, memLog, Imm(), next)
      {
        if e !in base {
          var m :| m in base && e == Edited(m, current.logNumber, inputs, outputs, next);
          CompactionEditKeeps(m, current, tables, logs, acked, ackedSync, memLog, Imm(), inputs, outputs, next);
        }
      }
    }

    /** The manifest record is on disk: the outputs have taken the place of the inputs. */
    method CompactionCommitted()
      requires Inv() && running && compaction.CompactionCommit?
      modifies this`possible, this`base, this`current, this`compaction, this`pending
      ensures Inv() && compaction == NoCompaction && pending == old(pending) - old(compaction).outputs
      ensures current == Edited(old(current), old(current).logNumber, old(compaction).inputs, old(compaction).outputs, old(compaction).bound)
      ensures possible == base == WithEdit(old(base), current.logNumber, old(compaction).inputs, old(compaction).outputs, old(compaction).bound)
    {
      hide AllOk, AllFit, AllHave, AllLack, LogsOk, StandFor, WithEdit;
      var inputs, outputs, bound := compaction.inputs, compaction.outputs, compaction.bound;
      ghost var edited := WithEdit(base, current.logNumber, inputs, outputs, bound);
      var committed := Edited(current, current.logNumber, inputs, outputs, bound);
      FewerOk(possible, edited, tables, logs, acked, ackedSync, memLog, Imm(), next, {});
      EditedAlike(base, current, current.logNumber, inputs, outputs, bound);
      HaveOwn(committed);
      hide Edited;
      possible, base, current := edited, edited, committed;
      // Clean up: the outputs are in the version now
      pending := pending - outputs;
      compaction := NoCompaction;
    }

    /** Nobody knows whether the manifest record is on disk. */
    method CompactionNotCommitted()
      requires Inv() && running && compaction.CompactionCommit?
      modifies this`base, this`compaction, this`pending, this`bgError
      ensures Inv() && compaction == NoCompaction && pending == old(pending) - old(compaction).outputs && bgError
      ensures base == possible
    {
      hide AllOk, AllFit, AllHave, AllLack, LogsOk, StandFor, WithEdit;
      bgError := true;
      base := possible;
      pending := pending - compaction.outputs;
      compaction := NoCompaction;
    }

    /** Give a compaction up. */
    method CompactionFail()
      requires Inv() && running && compaction.Compacting? && flush == NoFlush
      modifies this`compaction, this`pending, this`bgError
      ensures Inv() && compaction == NoCompaction && pending == old(pending) - old(compaction).outputs && bgError
    {
      pending := pending - compaction.outputs;
      compaction := NoCompaction;
      bgError := true;
    }

    /** A reader takes the current version, or gives one back. */
    method Pin()
      requires Inv() && running
      modifies this`pinned
      ensures Inv() && pinned == old(pinned) + [current.files]
    {
      pinned := pinned + [current.files];
    }

    method Unpin(i: nat)
      requires Inv() && running && i < |pinned|
      modifies this`pinned
      ensures Inv() && pinned == old(pinned)[..i] + old(pinned)[i + 1..]
    {
      pinned := pinned[..i] + pinned[i + 1..];
    }

    // ----- Deleting obsolete files -----

    /** The background thread collects garbage only between its other jobs, and never after an error. */
    ghost predicate MayCollect()
      reads this`running, this`bgError, this`flush, this`compaction
    {
      running && !bgError && flush == NoFlush && !compaction.CompactionCommit?
    }

    /** A table that no version that is in use needs, and that is not being built. */
    predicate Obsolete(n: nat)
      reads this`pending, this`current, this`pinned
    {
      n !in pending && n !in current.files && forall i :: 0 <= i < |pinned| ==> n !in pinned[i]
    }

    method DeleteTable(n: nat)
      requires Inv() && MayCollect() && n in tables && Obsolete(n)
      modifies this`tables
      ensures Inv() && tables == old(tables) - {n}
    {
      hide LogsOk;
      ghost var was := tables;
      tables := tables - {n};
      FewerTables(was, tables, n);
      hide ManifestOk, ManifestFits;
      forall m | m in possible
        ensures ManifestOk(m, tables, logs, ackedSync) && ManifestFits(m, tables, logs, acked, memLog, Imm(), next)
      {
        FewerTablesKeep(m, was, tables, n, logs, acked, ackedSync, memLog, Imm(), next);
      }
    }

    /** Logs from the log number on are kept. */
    method DeleteLog(k: nat)
      requires Inv() && MayCollect() && k in logs && k < current.logNumber
      modifies this`logs
      ensures Inv() && logs == old(logs) - {k}
    {
      ghost var was := logs;
      logs := logs - {k};
      FewerLogs(was, logs, k);
      assert ManifestFits(current, tables, was, acked, memLog, Imm(), next);
      hide ManifestOk, ManifestFits;
      forall m | m in possible
        ensures ManifestOk(m, tables, logs, ackedSync) && ManifestFits(m, tables, logs, acked, memLog, Imm(), next)
      {
        FewerLogsKeep(m, tables, was, logs, k, acked, ackedSync, memLog, Imm(), next);
      }
    }

    /** The logs before the log number, and the tables that are obsolete. */
    function GivenUp(files: seq<nat>): set<nat>
      reads this`current
    {
      set k | k in files && k < current.logNumber
    }

    function Unused(files: seq<nat>): set<nat>
      reads this`pending, this`current, this`pinned
    {
      set n | n in files && Obsolete(n)
    }

    /** Go through all files and delete what is obsolete. */
    method DeleteObsoleteFiles(logFiles: seq<nat>, tableFiles: seq<nat>)
      requires Inv() && running && flush == NoFlush && !compaction.CompactionCommit?
      modifies this`logs, this`tables
      ensures Inv()
      ensures logs == if bgError then old(logs) else old(logs) - GivenUp(logFiles)
      ensures tables == if bgError then old(tables) else old(tables) - Unused(tableFiles)
    {
      if bgError {
        // The manifest may name the table
        return;
      }
      DeleteLogs(logFiles);
      DeleteTables(tableFiles);
    }

    method DeleteLogs(files: seq<nat>)
      requires Inv() && MayCollect()
      modifies this`logs
      ensures Inv() && logs == old(logs) - GivenUp(files)
    {
      hide DiskOk, MemoryOk, CurrentOk, FilesOk, FlushOk, CompactionOk, OpeningOk, Genuine;
      for i := 0 to |files|
        invariant Inv() && logs == old(logs) - GivenUp(files[..i])
      {
        assert files[..i + 1] == files[..i] + [files[i]];
        var keep := files[i] >= current.logNumber;
        if !keep && files[i] in logs {
          DeleteLog(files[i]);
        }
      }
      assert files[..|files|] == files;
    }

    method DeleteTables(files: seq<nat>)
      requires Inv() && MayCollect()
      modifies this`tables
      ensures Inv() && tables == old(tables) - Unused(files)
    {
      hide DiskOk, MemoryOk, CurrentOk, FilesOk, FlushOk, CompactionOk, OpeningOk, Genuine, Obsolete;
      for i := 0 to |files|
        invariant Inv() && tables == old(tables) - Unused(files[..i])
      {
        assert files[..i + 1] == files[..i] + [files[i]];
        if Obsolete(files[i]) && files[i] in tables {
          DeleteTable(files[i]);
        }
      }
      assert files[..|files|] == files;
    }

    // ----- Crashing and opening -----

    /** A new database. */
    constructor ()
      ensures Inv() && !running && opening == Down && acked == {} && ackedSync == {} && made == {}
      ensures logs == map[] && tables == map[] && current == Manifest(0, {}, 2) && possible == base == {current}
      ensures next == 2 && memLog == 0 && mem == {} && imm == None && replayed == {} && written == {}
      ensures pending == {} && pinned == [] && flush == NoFlush && compaction == NoCompaction && !bgError
    {
      logs, tables, running, opening, replayed := map[], map[], false, Down, {};
      current, next, memLog, mem, imm := Manifest(0, {}, 2), 2, 0, {}, None;
      pending, pinned, flush, compaction, bgError := {}, [], NoFlush, NoCompaction, false;
      possible, base := {Manifest(0, {}, 2)}, {Manifest(0, {}, 2)};
      acked, ackedSync, made, written := {}, {}, {}, {};
    }

    /** The machine crashes, at any point: memory is lost, and of every log what was not synced may be.
        The manifest says one of the things it may say.  Writes acknowledged with sync are still promised. */
    method Crash(says: Manifest, kept: map<nat, nat>)
      requires Inv() && says in possible && kept.Keys == logs.Keys
      requires forall k :: k in logs ==> logs[k].synced <= kept[k] <= |logs[k].writes|
      modifies this
      ensures Inv() && !running && opening == Down && current == says && possible == {says}
      ensures acked == ackedSync == old(ackedSync) && tables == old(tables) && made == old(made)
      ensures logs == Cut(old(logs), kept) && mem == {} && imm == None && replayed == {}
      ensures forall w :: w in ackedSync ==> InTables(tables, says.files, w) || InLogs(logs, says.logNumber, w)
    {
      CrashKeeps(logs, kept, says, tables, ackedSync, possible);
      CutMade(logs, kept, tables, made);
      hide AllOk, AllMade, LogsOk, Cut, InTables, InLogs, DiskOk, MemoryOk, CurrentOk, FilesOk, FlushOk, CompactionOk, OpeningOk;
      Forget(says, Cut(logs, kept));
    }

    method Forget(says: Manifest, cut: map<nat, LogFile>)
      requires LogsOk(cut) && AllOk({says}, tables, cut, ackedSync) && AllMade(cut, tables, made)
      modifies this
      ensures Inv() && !running && opening == Down && current == says && possible == {says} && logs == cut
      ensures acked == ackedSync == old(ackedSync) && tables == old(tables) && made == old(made)
      ensures mem == {} && imm == None && replayed == {}
    {
      hide AllOk, AllMade, LogsOk, CoversSynced, MemoryOk, CurrentOk, FilesOk, FlushOk, CompactionOk, RecoveredIn, Edited, Outputs, Committing;
      RememberDisk(says, cut);
      ClearMemory();
      assert DiskOk() && OpeningOk() && Genuine();
      hide DiskOk, OpeningOk, Genuine;
    }

    method RememberDisk(says: Manifest, cut: map<nat, LogFile>)
      modifies this`logs, this`running, this`opening, this`replayed, this`current, this`possible, this`base, this`acked
      ensures logs == cut && !running && opening == Down && replayed == {} && current == says
      ensures possible == base == {says} && acked == ackedSync
    {
      logs := cut;
      running, opening, replayed := false, Down, {};
      current := says;
      possible, base := {says}, {says};
      acked := ackedSync;
    }

    method ClearMemory()
      modifies this`mem, this`imm, this`pending, this`pinned, this`flush, this`compaction, this`bgError
      ensures mem == {} && imm == None && pending == {} && pinned == [] && flush == NoFlush && compaction == NoCompaction && !bgError
    {
      mem, imm, pending, pinned, flush, compaction, bgError := {}, None, {}, [], NoFlush, NoCompaction, false;
    }

    /** Read the logs that the manifest wants read, in order, into a table; and create a new log.  No table
        of the manifest is missing. */
    method Replay(logFiles: seq<nat>) returns (missing: set<nat>)
      requires Inv() && !running && opening == Down && forall k :: k in logFiles <==> k in logs
      modifies this`logs, this`tables, this`next, this`replayed, this`opening
      ensures missing == {}
      ensures Inv() && opening.Replayed? && (forall w :: w in ackedSync ==> InTables(tables, current.files + {opening.n}, w))
      ensures forall w :: w in replayed <==> InLogs(old(logs), current.logNumber, w)
      ensures tables == old(tables)[opening.n := replayed] && opening.n !in current.files
      ensures logs == old(logs)[opening.newLog := LogFile([], 0)] && opening.newLog !in old(logs)
      ensures opening.newLog < next && current.next <= opening.n < next && opening.n != opening.newLog
    {
      hide InListed, InLogs;
      missing := current.files - tables.Keys;
      next := current.next;
      replayed := {};
      NoneListed(logs, logFiles, current.logNumber);
      for i := 0 to |logFiles|
        modifies this`next, this`replayed
        invariant next >= current.next
        invariant forall j :: 0 <= j < i && logFiles[j] >= current.logNumber ==> logFiles[j] < next
        invariant forall w :: w in replayed <==> InListed(logs, logFiles[..i], current.logNumber, w)
      {
        var k := logFiles[i];
        OneMoreListed(logs, logFiles, i, current.logNumber);
        if k >= current.logNumber {
          replayed := replayed + set w | w in logs[k].writes;
          // A log may have been given its number and hold nothing
          if next <= k {
            next := k + 1;
          }
        }
      }
      assert logFiles[..|logFiles|] == logFiles;
      ListedAreAll(logs, logFiles, current.logNumber);
      assert forall k :: k in logs ==> k < next by {
        forall k | k in logs ensures k < next {
          var j :| 0 <= j < |logFiles| && logFiles[j] == k;
        }
      }
      ReplayDone();
    }

    /** Write what was replayed into a table, and create a new log. */
    method ReplayDone()
      requires DiskOk() && !running && possible == {current} && acked == ackedSync && current.next <= next
      requires (forall k :: k in logs ==> k < next) && AllMade(logs, tables, made) && mem <= made && Imm() <= made
      requires forall w :: w in replayed <==> InLogs(logs, current.logNumber, w)
      modifies this`logs, this`tables, this`next, this`opening
      ensures Inv() && opening.Replayed? && (forall w :: w in ackedSync ==> InTables(tables, current.files + {opening.n}, w))
      ensures tables == old(tables)[opening.n := replayed] && opening.n == old(next) && opening.n !in current.files
      ensures logs == old(logs)[opening.newLog := LogFile([], 0)] && opening.newLog == old(next) + 1 && next == old(next) + 2
    {
      MadeByReplay(logs, tables, made, current.logNumber, replayed, next);
      hide AllMade;
      ghost var wasTables, wasLogs := tables, logs;
      var n, newLog := next, next + 1;
      next := next + 2;
      tables := tables[n := replayed];
      logs := logs[newLog := LogFile([], 0)];
      opening := Replayed(n, newLog);
      NewTable(wasTables, tables, n, replayed);
      NewLog(wasLogs, logs, newLog);
      assert ManifestOk(current, wasTables, wasLogs, ackedSync);
      ReplayKeeps(current, wasTables, tables, wasLogs, logs, ackedSync, n, newLog, replayed);
    }

    /** Record in the manifest that the table takes the place of the old logs. */
    method OpenCommitBegin()
      requires Inv() && !running && opening.Replayed?
      modifies this`possible, this`opening
      ensures Inv() && opening == OpenCommit(old(opening).n, old(opening).newLog)
      ensures possible == {current, Edited(current, opening.newLog, {}, {opening.n}, next)}
    {
      hide InLogs, InSyncedLogs;
      var n, newLog := opening.n, opening.newLog;
      OpenEditKeeps(current, tables, logs, ackedSync, n, newLog, replayed, next);
      opening := OpenCommit(n, newLog);
      possible := {current, Edited(current, newLog, {}, {n}, next)};
    }

    /** The manifest record is on disk: the database is open. */
    method OpenDone()
      requires Inv() && !running && opening.OpenCommit?
      modifies this
      ensures Inv() && running && Opened(old(logs), old(tables), old(ackedSync), old(made), old(opening).newLog, old(next))
      ensures current == Edited(old(current), memLog, {}, {old(opening).n}, next)
    {
      var n, newLog := opening.n, opening.newLog;
      OpenEditFits(current, tables, logs, ackedSync, n, newLog, replayed, next);
      current := Edited(current, newLog, {}, {n}, next);
      Start(newLog);
    }

    /** When there was nothing in the logs, the manifest need not be written. */
    method OpenQuietly()
      requires Inv() && !running && opening.Replayed? && replayed == {}
      modifies this
      ensures Inv() && running && Opened(old(logs), old(tables), old(ackedSync), old(made), old(opening).newLog, old(next))
      ensures current == old(current)
    {
      QuietFits(current, tables, logs, ackedSync, opening.newLog, next);
      Start(opening.newLog);
    }

    /** Memory is new, and nothing on disk has changed. */
    ghost predicate Opened(wasLogs: map<nat, LogFile>, wasTables: Tables, promised: set<Write>, written: set<Write>, newLog: nat, bound: nat)
      reads this
    {
      && logs == wasLogs && tables == wasTables && acked == ackedSync == promised && made == written
      && memLog == newLog && next == bound && mem == {} && imm == None && !bgError && flush == NoFlush && compaction == NoCompaction
      && pending == {} && pinned == [] && possible == base == {current}
    }

    method Start(newLog: nat)
      requires !running && newLog in logs && newLog < next && logs[newLog].writes == [] && (forall k :: k in logs ==> k <= newLog)
      requires LogsOk(logs) && ManifestOk(current, tables, logs, ackedSync)
      requires ManifestFits(current, tables, logs, ackedSync, newLog, {}, next) && Genuine()
      modifies this
      ensures Inv() && running && current == old(current) && Opened(old(logs), old(tables), old(ackedSync), old(made), newLog, old(next))
    {
      OnlyThis(current, tables, logs, ackedSync, newLog, next);
      hide ManifestOk, ManifestFits, LogsOk, AllOk, AllFit, AllHave, AllLack, OpeningOk, RecoveredIn, Edited, WithEdit;
      HaveOwn(current);
      ClearMemory();
      memLog := newLog;
      acked := ackedSync;
      possible, base := {current}, {current};
      running := true;
    }
  }

  /** The logs after a write has been appended to one of them, and perhaps synced with all before it. */
  function Grown(logs: map<nat, LogFile>, k: nat, w: Write, sync: bool): (grown: map<nat, LogFile>)
    ensures k in logs ==> k in grown && grown == logs[k := grown[k]] && grown[k].writes == logs[k].writes + [w]
  {
    if k !in logs then logs
    else logs[k := LogFile(logs[k].writes + [w], if sync then |logs[k].writes| + 1 else logs[k].synced)]
  }

  /** A log that grew holds what it held, and the new write. */
  lemma Appended(logs: map<nat, LogFile>, logs': map<nat, LogFile>, memLog: nat, w: Write, sync: bool)
    requires LogsOk(logs) && memLog in logs && logs' == Grown(logs, memLog, w, sync)
    ensures LogsOk(logs')
    ensures forall from, v :: InLogs(logs, from, v) ==> InLogs(logs', from, v)
    ensures forall from, v :: InSyncedLogs(logs, from, v) ==> InSyncedLogs(logs', from, v)
    ensures forall from: nat :: from <= memLog ==> InLogs(logs', from, w) && (sync ==> InSyncedLogs(logs', from, w))
  {
    var log, log' := logs[memLog], logs'[memLog];
    forall v | SyncedIn(log, v) ensures SyncedIn(log', v) {
      var i :| 0 <= i < log.synced && i < |log.writes| && log.writes[i] == v;
      assert log'.writes[i] == v;
    }
    forall from, v | InSyncedLogs(logs, from, v) ensures InSyncedLogs(logs', from, v) {
      var k :| k in logs && k >= from && SyncedIn(logs[k], v);
      assert k in logs' && SyncedIn(logs'[k], v);
    }
    forall from, v | InLogs(logs, from, v) ensures InLogs(logs', from, v) {
      var k :| k in logs && k >= from && v in logs[k].writes;
      assert k in logs' && v in logs'[k].writes;
    }
    assert log'.writes[|log'.writes| - 1] == w;
    assert sync ==> SyncedIn(log', w);
  }

  lemma AppendKeeps(m: Manifest, tables: Tables, logs: map<nat, LogFile>, logs': map<nat, LogFile>, acked: set<Write>,
                    acked': set<Write>, ackedSync: set<Write>, ackedSync': set<Write>, memLog: nat, imm: set<Write>, next: nat,
                    w: Write, sync: bool)
    requires ManifestOk(m, tables, logs, ackedSync) && ManifestFits(m, tables, logs, acked, memLog, imm, next)
    requires memLog in logs && memLog in logs' && logs' == logs[memLog := logs'[memLog]]
    requires acked' == acked + {w} && ackedSync' == if sync then ackedSync + {w} else ackedSync
    requires forall from, v :: InLogs(logs, from, v) ==> InLogs(logs', from, v)
    requires forall from, v :: InSyncedLogs(logs, from, v) ==> InSyncedLogs(logs', from, v)
    requires forall from: nat :: from <= memLog ==> InLogs(logs', from, w) && (sync ==> InSyncedLogs(logs', from, w))
    ensures ManifestOk(m, tables, logs', ackedSync') && ManifestFits(m, tables, logs', acked', memLog, imm, next)
  {
    hide InTables, InLogs, InSyncedLogs;
  }

  lemma AppendKeepsAll(ms: set<Manifest>, tables: Tables, logs: map<nat, LogFile>, logs': map<nat, LogFile>, acked: set<Write>,
                       ackedSync: set<Write>, memLog: nat, imm: set<Write>, next: nat, w: Write, sync: bool)
    requires AllOk(ms, tables, logs, ackedSync) && AllFit(ms, tables, logs, acked, memLog, imm, next) && LogsOk(logs) && memLog in logs
    requires logs' == Grown(logs, memLog, w, sync)
    ensures AllOk(ms, tables, logs', if sync then ackedSync + {w} else ackedSync)
    ensures AllFit(ms, tables, logs', acked + {w}, memLog, imm, next) && LogsOk(logs')
  {
    hide ManifestOk, ManifestFits, LogsOk, InLogs, InSyncedLogs;
    Appended(logs, logs', memLog, w, sync);
    forall m | m in ms
      ensures ManifestOk(m, tables, logs', if sync then ackedSync + {w} else ackedSync)
      ensures ManifestFits(m, tables, logs', acked + {w}, memLog, imm, next)
    {
      AppendKeeps(m, tables, logs, logs', acked, acked + {w}, ackedSync, if sync then ackedSync + {w} else ackedSync,
                  memLog, imm, next, w, sync);
    }
  }

  lemma NewLog(logs: map<nat, LogFile>, logs': map<nat, LogFile>, newLog: nat)
    requires newLog !in logs && logs' == logs[newLog := LogFile([], 0)]
    ensures LogsOk(logs) ==> LogsOk(logs')
    ensures forall from, v :: InLogs(logs, from, v) ==> InLogs(logs', from, v)
    ensures forall from, v :: InSyncedLogs(logs, from, v) ==> InSyncedLogs(logs', from, v)
  {
    forall from, v | InSyncedLogs(logs, from, v) ensures InSyncedLogs(logs', from, v) {
      var k :| k in logs && k >= from && SyncedIn(logs[k], v);
      assert k in logs' && SyncedIn(logs'[k], v);
    }
    forall from, v | InLogs(logs, from, v) ensures InLogs(logs', from, v) {
      var k :| k in logs && k >= from && v in logs[k].writes;
      assert k in logs' && v in logs'[k].writes;
    }
  }

  lemma SwitchKeeps(m: Manifest, tables: Tables, logs: map<nat, LogFile>, logs': map<nat, LogFile>, acked: set<Write>,
                    ackedSync: set<Write>, oldLog: nat, newLog: nat, mem: set<Write>, next: nat)
    requires ManifestOk(m, tables, logs, ackedSync) && ManifestFits(m, tables, logs, acked, oldLog, {}, next) && next == newLog
    requires logs' == logs[newLog := LogFile([], 0)] && oldLog in logs && oldLog < newLog
    requires forall k :: k in logs ==> k <= oldLog
    requires forall w :: w in logs[oldLog].writes ==> w in mem
    requires forall from, v :: InLogs(logs, from, v) ==> InLogs(logs', from, v)
    requires forall from, v :: InSyncedLogs(logs, from, v) ==> InSyncedLogs(logs', from, v)
    ensures ManifestOk(m, tables, logs', ackedSync) && ManifestFits(m, tables, logs', acked, newLog, mem, newLog + 1)
  {
    hide InTables, InLogs, InSyncedLogs;
  }

  lemma NewTable(tables: Tables, tables': Tables, n: nat, ws: set<Write>)
    requires tables' == tables[n := ws]
    ensures forall files, w :: n !in files && InTables(tables, files, w) ==> InTables(tables', files, w)
    ensures forall files, w :: n in files && w in ws ==> InTables(tables', files, w)
    ensures tables.Keys <= tables'.Keys
  {
    forall files, w | n !in files && InTables(tables, files, w) ensures InTables(tables', files, w) {
      var f :| f in files && f in tables && w in tables[f];
      assert f in tables' && w in tables'[f];
    }
  }

  lemma TablesKeep(m: Manifest, tables: Tables, tables': Tables, logs: map<nat, LogFile>, acked: set<Write>,
                   ackedSync: set<Write>, memLog: nat, imm: set<Write>, next: nat)
    requires ManifestOk(m, tables, logs, ackedSync) && ManifestFits(m, tables, logs, acked, memLog, imm, next)
    requires tables.Keys <= tables'.Keys && forall w :: InTables(tables, m.files, w) ==> InTables(tables', m.files, w)
    ensures ManifestOk(m, tables', logs, ackedSync) && ManifestFits(m, tables', logs, acked, memLog, imm, next)
  {
    hide InTables, InLogs, InSyncedLogs;
  }

  /** With the table of the immutable memtable the older logs are not needed. */
  lemma FlushEditKeeps(m: Manifest, tables: Tables, logs: map<nat, LogFile>, acked: set<Write>, ackedSync: set<Write>,
                       memLog: nat, imm: set<Write>, n: nat, next: nat)
    requires ManifestOk(m, tables, logs, ackedSync) && ManifestFits(m, tables, logs, acked, memLog, imm, next)
    requires n in tables && imm <= tables[n] && n < next && memLog < next
    ensures var e := Edited(m, memLog, {}, {n}, next);
        ManifestOk(e, tables, logs, ackedSync) && ManifestFits(e, tables, logs, acked, memLog, imm, next)
  {
    var e := Edited(m, memLog, {}, {n}, next);
    forall w | InTables(tables, m.files, w) ensures InTables(tables, e.files, w) {
      var f :| f in m.files && f in tables && w in tables[f];
      assert f in e.files;
    }
    forall w | w in imm ensures InTables(tables, e.files, w) {
      assert n in e.files;
    }
    hide InTables;
    forall w | InLogs(logs, m.logNumber, w) ensures InTables(tables, e.files, w) || InLogs(logs, memLog, w) {
      var k :| k in logs && k >= m.logNumber && w in logs[k].writes;
    }
    forall w | InSyncedLogs(logs, m.logNumber, w) ensures InTables(tables, e.files, w) || InSyncedLogs(logs, memLog, w) {
      var k :| k in logs && k >= m.logNumber && SyncedIn(logs[k], w);
      var i :| 0 <= i < logs[k].synced && i < |logs[k].writes| && logs[k].writes[i] == w;
      assert w in logs[k].writes;
    }
  }

  lemma FlushedFit(ms: set<Manifest>, tables: Tables, logs: map<nat, LogFile>, acked: set<Write>, memLog: nat, imm: set<Write>, next: nat)
    requires AllFit(ms, tables, logs, acked, memLog, imm, next) && forall m :: m in ms ==> m.logNumber == memLog
    ensures AllFit(ms, tables, logs, acked, memLog, {}, next)
  {
  }

  lemma FewerOk(ms: set<Manifest>, fewer: set<Manifest>, tables: Tables, logs: map<nat, LogFile>, acked: set<Write>,
                ackedSync: set<Write>, memLog: nat, imm: set<Write>, next: nat, outputs: set<nat>)
    requires fewer <= ms && AllOk(ms, tables, logs, ackedSync) && AllFit(ms, tables, logs, acked, memLog, imm, next)
    ensures AllOk(fewer, tables, logs, ackedSync) && AllFit(fewer, tables, logs, acked, memLog, imm, next)
    ensures AllLack(ms, outputs) ==> AllLack(fewer, outputs)
  {
    hide ManifestOk, ManifestFits;
  }

  lemma BothHave(a: set<Manifest>, b: set<Manifest>, files: set<nat>)
    requires AllHave(a, files) && AllHave(b, files)
    ensures AllHave(a + b, files)
  {
  }

  lemma HaveOwn(m: Manifest)
    ensures AllHave({m}, m.files)
  {
  }

  /** Replacing tables of the current version by others that stand for them leaves nothing uncovered. */
  lemma CompactionEditKeeps(m: Manifest, current: Manifest, tables: Tables, logs: map<nat, LogFile>, acked: set<Write>,
                            ackedSync: set<Write>, memLog: nat, imm: set<Write>, inputs: set<nat>, outputs: set<nat>, next: nat)
    requires ManifestOk(m, tables, logs, ackedSync) && ManifestFits(m, tables, logs, acked, memLog, imm, next)
    requires ManifestOk(current, tables, logs, ackedSync) && ManifestFits(current, tables, logs, acked, memLog, imm, next)
    requires current.files <= m.files && inputs <= current.files
    requires outputs <= tables.Keys && (forall f :: f in outputs ==> f < next) && StandFor(tables, inputs, outputs)
    ensures var e := Edited(m, current.logNumber, inputs, outputs, next);
        ManifestOk(e, tables, logs, ackedSync) && ManifestFits(e, tables, logs, acked, memLog, imm, next)
  {
    var e := Edited(m, current.logNumber, inputs, outputs, next);
    forall w | InTables(tables, current.files, w) ensures InTables(tables, e.files, w) {
      var f :| f in current.files && f in tables && w in tables[f];
      if f in inputs {
        assert InTables(tables, inputs, w);
        var g :| g in outputs && g in tables && w in tables[g];
        assert g in e.files;
      } else {
        assert f in e.files;
      }
    }
    hide InTables, InLogs, InSyncedLogs;
    assert Covers(e, tables, logs, acked) && CoversSynced(e, tables, logs, ackedSync);
    assert OldLogsDone(e, tables, logs, memLog, imm);
    hide Covers, CoversSynced, OldLogsDone, StandFor;
    assert e.files <= tables.Keys;
    assert forall f :: f in e.files ==> f < e.next;
    assert e.logNumber < e.next;
  }

  lemma EditedAlike(base: set<Manifest>, current: Manifest, logNumber: nat, removed: set<nat>, added: set<nat>, next: nat)
    requires current in base
    ensures var committed := Edited(current, logNumber, removed, added, next);
        var edited := WithEdit(base, logNumber, removed, added, next);
        && committed in edited && (forall e :: e in edited ==> e.logNumber == logNumber)
        && (base == {current} ==> edited == {committed})
        && (AllHave(base, current.files) ==> AllHave(edited, committed.files) && (removed == {} ==> AllHave(edited, current.files)))
  {
  }

  lemma FewerTables(tables: Tables, tables': Tables, n: nat)
    requires tables' == tables - {n}
    ensures forall files, w :: n !in files && InTables(tables, files, w) ==> InTables(tables', files, w)
    ensures forall files, w :: InTables(tables', files, w) ==> InTables(tables, files, w)
  {
    forall files, w | n !in files && InTables(tables, files, w) ensures InTables(tables', files, w) {
      var f :| f in files && f in tables && w in tables[f];
      assert f in tables' && w in tables'[f];
    }
    forall files, w | InTables(tables', files, w) ensures InTables(tables, files, w) {
      var f :| f in files && f in tables' && w in tables'[f];
      assert f in tables && w in tables[f];
    }
  }

  lemma FewerTablesKeep(m: Manifest, tables: Tables, tables': Tables, n: nat, logs: map<nat, LogFile>, acked: set<Write>,
                        ackedSync: set<Write>, memLog: nat, imm: set<Write>, next: nat)
    requires ManifestOk(m, tables, logs, ackedSync) && ManifestFits(m, tables, logs, acked, memLog, imm, next)
    requires tables' == tables - {n} && n !in m.files
    requires forall w :: InTables(tables, m.files, w) ==> InTables(tables', m.files, w)
    ensures ManifestOk(m, tables', logs, ackedSync) && ManifestFits(m, tables', logs, acked, memLog, imm, next)
  {
    hide InTables, InLogs, InSyncedLogs;
  }

  lemma FewerLogs(logs: map<nat, LogFile>, logs': map<nat, LogFile>, k: nat)
    requires logs' == logs - {k}
    ensures LogsOk(logs) ==> LogsOk(logs')
    ensures forall from, v :: from > k && InLogs(logs, from, v) ==> InLogs(logs', from, v)
    ensures forall from, v :: from > k && InSyncedLogs(logs, from, v) ==> InSyncedLogs(logs', from, v)
  {
    forall from, v | from > k && InSyncedLogs(logs, from, v) ensures InSyncedLogs(logs', from, v) {
      var j :| j in logs && j >= from && SyncedIn(logs[j], v);
      assert j in logs' && SyncedIn(logs'[j], v);
    }
    forall from, v | from > k && InLogs(logs, from, v) ensures InLogs(logs', from, v) {
      var j :| j in logs && j >= from && v in logs[j].writes;
      assert j in logs' && v in logs'[j].writes;
    }
  }

  lemma FewerLogsKeep(m: Manifest, tables: Tables, logs: map<nat, LogFile>, logs': map<nat, LogFile>, k: nat, acked: set<Write>,
                      ackedSync: set<Write>, memLog: nat, imm: set<Write>, next: nat)
    requires ManifestOk(m, tables, logs, ackedSync) && ManifestFits(m, tables, logs, acked, memLog, imm, next)
    requires logs' == logs - {k} && m.logNumber > k
    requires forall v :: InLogs(logs, m.logNumber, v) ==> InLogs(logs', m.logNumber, v)
    requires forall v :: InSyncedLogs(logs, m.logNumber, v) ==> InSyncedLogs(logs', m.logNumber, v)
    ensures ManifestOk(m, tables, logs', ackedSync) && ManifestFits(m, tables, logs', acked, memLog, imm, next)
  {
    hide InTables, InLogs, InSyncedLogs;
  }

  /** The logs, each cut to a length. */
  function Cut(logs: map<nat, LogFile>, kept: map<nat, nat>): map<nat, LogFile>
    requires kept.Keys == logs.Keys && forall k :: k in logs ==> kept[k] <= |logs[k].writes|
  {
    map k | k in logs :: LogFile(logs[k].writes[..kept[k]], kept[k])
  }

  lemma CutLogs(logs: map<nat, LogFile>, logs': map<nat, LogFile>, kept: map<nat, nat>)
    requires kept.Keys == logs.Keys == logs'.Keys && LogsOk(logs)
    requires forall k :: k in logs ==> logs[k].synced <= kept[k] <= |logs[k].writes|
    requires forall k :: k in logs ==> logs'[k] == LogFile(logs[k].writes[..kept[k]], kept[k])
    ensures LogsOk(logs')
    ensures forall from, v :: InSyncedLogs(logs, from, v) ==> InSyncedLogs(logs', from, v) && InLogs(logs', from, v)
  {
    forall from, v | InSyncedLogs(logs, from, v) ensures InSyncedLogs(logs', from, v) && InLogs(logs', from, v) {
      var k :| k in logs && k >= from && SyncedIn(logs[k], v);
      var i :| 0 <= i < logs[k].synced && i < |logs[k].writes| && logs[k].writes[i] == v;
      assert logs'[k].writes[i] == v;
      assert k in logs' && SyncedIn(logs'[k], v) && v in logs'[k].writes;
    }
  }

  lemma CrashKeeps(logs: map<nat, LogFile>, kept: map<nat, nat>, says: Manifest, tables: Tables, ackedSync: set<Write>,
                   possible: set<Manifest>)
    requires LogsOk(logs) && kept.Keys == logs.Keys && forall k :: k in logs ==> logs[k].synced <= kept[k] <= |logs[k].writes|
    requires says in possible && AllOk(possible, tables, logs, ackedSync)
    ensures LogsOk(Cut(logs, kept)) && AllOk({says}, tables, Cut(logs, kept), ackedSync)
    ensures forall w :: w in ackedSync ==> InTables(tables, says.files, w) || InLogs(Cut(logs, kept), says.logNumber, w)
  {
    CutLogs(logs, Cut(logs, kept), kept);
    CutKeeps(says, tables, logs, Cut(logs, kept), ackedSync);
    hide ManifestOk, InTables, InLogs, Cut;
  }

  lemma CutMade(logs: map<nat, LogFile>, kept: map<nat, nat>, tables: Tables, made: set<Write>)
    requires kept.Keys == logs.Keys && (forall k :: k in logs ==> kept[k] <= |logs[k].writes|) && AllMade(logs, tables, made)
    ensures AllMade(Cut(logs, kept), tables, made)
  {
  }

  lemma CutKeeps(m: Manifest, tables: Tables, logs: map<nat, LogFile>, logs': map<nat, LogFile>, ackedSync: set<Write>)
    requires ManifestOk(m, tables, logs, ackedSync)
    requires forall from, v :: InSyncedLogs(logs, from, v) ==> InSyncedLogs(logs', from, v) && InLogs(logs', from, v)
    ensures ManifestOk(m, tables, logs', ackedSync)
    ensures forall w :: w in ackedSync ==> InTables(tables, m.files, w) || InLogs(logs', m.logNumber, w)
  {
    hide InTables, InLogs, InSyncedLogs;
  }

  /** Nothing is lost by replaying, and all is in the new table or in tables already. */
  lemma ReplayKeeps(m: Manifest, tables: Tables, tables': Tables, logs: map<nat, LogFile>, logs': map<nat, LogFile>,
                    ackedSync: set<Write>, n: nat, newLog: nat, replayed: set<Write>)
    requires ManifestOk(m, tables, logs, ackedSync) && n !in m.files && tables' == tables[n := replayed]
    requires newLog !in logs && logs' == logs[newLog := LogFile([], 0)]
    requires forall w :: w in replayed <==> InLogs(logs, m.logNumber, w)
    requires forall w :: InTables(tables, m.files, w) ==> InTables(tables', m.files, w)
    requires forall from, v :: InSyncedLogs(logs, from, v) ==> InSyncedLogs(logs', from, v)
    ensures ManifestOk(m, tables', logs', ackedSync)
    ensures forall w :: InLogs(logs', m.logNumber, w) <==> w in replayed
    ensures forall w :: w in ackedSync ==> InTables(tables', m.files + {n}, w)
  {
    forall w | InLogs(logs, m.logNumber, w) ensures InLogs(logs', m.logNumber, w) {
      var k :| k in logs && k >= m.logNumber && w in logs[k].writes;
      assert k in logs' && w in logs'[k].writes;
    }
    forall w | w in ackedSync ensures InTables(tables', m.files + {n}, w) {
      if InTables(tables, m.files, w) {
        var f :| f in m.files && f in tables' && w in tables'[f];
        assert f in m.files + {n};
      } else {
        var k :| k in logs && k >= m.logNumber && SyncedIn(logs[k], w);
        assert w in logs[k].writes;
        assert n in m.files + {n} && w in tables'[n];
      }
    }
  }

  lemma OpenEditKeeps(m: Manifest, tables: Tables, logs: map<nat, LogFile>, ackedSync: set<Write>, n: nat, newLog: nat,
                      replayed: set<Write>, next: nat)
    requires ManifestOk(m, tables, logs, ackedSync) && n in tables && tables[n] == replayed && n < next && newLog < next && m.next <= next
    requires forall w :: InLogs(logs, m.logNumber, w) ==> w in replayed
    ensures ManifestOk(Edited(m, newLog, {}, {n}, next), tables, logs, ackedSync)
    ensures forall w :: w in ackedSync ==> InTables(tables, Edited(m, newLog, {}, {n}, next).files, w)
  {
    var e := Edited(m, newLog, {}, {n}, next);
    forall w | w in ackedSync ensures InTables(tables, e.files, w) {
      if InTables(tables, m.files, w) {
        var f :| f in m.files && f in tables && w in tables[f];
        assert f in e.files;
      } else {
        var k :| k in logs && k >= m.logNumber && SyncedIn(logs[k], w);
        assert w in logs[k].writes;
        assert InLogs(logs, m.logNumber, w);
        assert n in e.files;
      }
    }
  }

  lemma OpenEditFits(m: Manifest, tables: Tables, logs: map<nat, LogFile>, ackedSync: set<Write>, n: nat, newLog: nat,
                     replayed: set<Write>, next: nat)
    requires ManifestOk(m, tables, logs, ackedSync) && n in tables && tables[n] == replayed && n < next && newLog < next && m.next <= next
    requires forall w :: InLogs(logs, m.logNumber, w) ==> w in replayed
    ensures ManifestFits(Edited(m, newLog, {}, {n}, next), tables, logs, ackedSync, newLog, {}, next)
  {
    OpenEditKeeps(m, tables, logs, ackedSync, n, newLog, replayed, next);
  }

  lemma QuietFits(m: Manifest, tables: Tables, logs: map<nat, LogFile>, ackedSync: set<Write>, newLog: nat, next: nat)
    requires ManifestOk(m, tables, logs, ackedSync) && m.logNumber <= newLog && m.next <= next
    requires forall w :: !InLogs(logs, m.logNumber, w)
    ensures ManifestFits(m, tables, logs, ackedSync, newLog, {}, next)
  {
    forall w | InSyncedLogs(logs, m.logNumber, w) ensures InLogs(logs, m.logNumber, w) {
      var k :| k in logs && k >= m.logNumber && SyncedIn(logs[k], w);
      assert w in logs[k].writes;
    }
    forall k, w | k in logs && k >= m.logNumber ensures w !in logs[k].writes {
      assert w in logs[k].writes ==> InLogs(logs, m.logNumber, w);
    }
  }

  lemma OnlyThis(m: Manifest, tables: Tables, logs: map<nat, LogFile>, acked: set<Write>, memLog: nat, next: nat)
    requires ManifestOk(m, tables, logs, acked) && ManifestFits(m, tables, logs, acked, memLog, {}, next)
    ensures AllOk({m}, tables, logs, acked) && AllFit({m}, tables, logs, acked, memLog, {}, next)
  {
  }

  // ----- A run -----

  /** One write is in a table; the log that it came from is still there. */
  ghost predicate JustFlushed(s: Store, w: Write, k: nat, n: nat)
    reads s
  {
    && s.running && s.current in s.possible && w in s.ackedSync && k < s.memLog
    && s.current.logNumber == s.memLog && s.current.files == {n} && n in s.tables && s.tables[n] == {w}
    && s.logs == map[k := LogFile([w], 1), s.memLog := LogFile([], 0)]
  }

  /** A new database, open. */
  method OpenNew() returns (s: Store)
    ensures fresh(s) && s.Inv() && s.running && s.current == Manifest(0, {}, 2)
    ensures s.memLog < s.next && s.logs == map[s.memLog := LogFile([], 0)]
    ensures s.imm == None && s.mem == {} && !s.bgError && s.flush == NoFlush && s.compaction == NoCompaction
  {
    hide Store.DiskOk, Store.MemoryOk, Store.CurrentOk, Store.FilesOk, Store.FlushOk, Store.CompactionOk, Store.Genuine, Store.OpeningOk;
    hide InLogs, InTables;
    s := new Store();
    var missing := s.Replay([]);
    NoLogs(s.current.logNumber);
    assert s.replayed == {};
    s.OpenQuietly();
  }

  lemma NoLogs(from: nat)
    ensures forall w :: !InLogs(map[], from, w)
  {
  }

  method FlushOne(w: Write) returns (s: Store, ghost k: nat, ghost n: nat)
    ensures fresh(s) && s.Inv() && JustFlushed(s, w, k, n)
  {
    hide Store.DiskOk, Store.MemoryOk, Store.CurrentOk, Store.FilesOk, Store.FlushOk, Store.CompactionOk, Store.Genuine, Store.OpeningOk;
    hide InLogs, InTables, Store.Inv;
    s := OpenNew();
    k := s.memLog;
    s.Append(w, true);
    s.SwitchMemTable();
    n := s.FlushWhole();
    s.CurrentPossible();
    assert [] + [w] == [w];
    assert s.tables[n] == {} + {w};
  }

  /** A write that has its table is not brought back a second time.  The database crashes after a flush and
      before the old log is deleted; when it opens again nothing is replayed, and nothing need be recorded. */
  method CrashAfterFlush(w: Write) returns (s: Store, again: set<Write>)
    ensures fresh(s) && s.Inv() && s.running && w in s.acked && again == {}
    ensures InTables(s.tables, s.current.files, w) && exists k :: k in s.logs && k < s.current.logNumber && w in s.logs[k].writes
  {
    hide Store.DiskOk, Store.MemoryOk, Store.CurrentOk, Store.FilesOk, Store.FlushOk, Store.CompactionOk, Store.Genuine, Store.OpeningOk;
    hide Store.Inv;
    ghost var k, n;
    s, k, n := FlushOne(w);
    s.LogsAreOk();
    var files := LogFiles(s.logs);
    s.Crash(s.current, map j | j in s.logs :: |s.logs[j].writes|);
    assert k in s.logs && s.logs[k].writes == [w][..1] == [w];
    var missing := s.Replay(files);
    again := s.replayed;
    assert again == {};
    s.OpenQuietly();
    assert n in s.current.files && w in s.tables[n];
    assert k in s.logs && w in s.logs[k].writes;
  }

  /** The numbers of the logs, as a listing of the directory gives them. */
  method LogFiles(logs: map<nat, LogFile>) returns (files: seq<nat>)
    ensures forall k :: k in files <==> k in logs
  {
    files := [];
    var left := logs.Keys;
    while left != {}
      invariant left <= logs.Keys && forall k :: k in files <==> k in logs.Keys - left
      decreases left
    {
      var k :| k in left;
      files := files + [k];
      left := left - {k};
    }
  }
}
