/**
 Why no logged write is lost. The front writer logs a batch, syncs the log if asked to, and puts the batch into the
 memtable; a full memtable becomes the immutable one and a new log begins; the one background thread turns the immutable
 memtable into a table, merges tables, and deletes the files that nothing needs. Each function below is what happens
 between two points at which the mutex is free, or a write to a file while it is; a crash may come after any of them.
 Input and output errors are not part of this model.
 */
module Durability {
  import opened Basics
  import opened DbFormat

  /** A group of writes under one record of the log. */
  datatype Batch = Batch(sequence: nat, entries: seq<Entry>)

  /** The records of a log file, of which a crash spares at least the first `synced`. */
  datatype LogFile = LogFile(records: seq<Batch>, synced: nat)

  /**
   What the descriptor tells: the oldest log still needed, one more for old databases, the tables, and the next file
   number at the time it was written.
   */
  datatype Descriptor = Descriptor(logNumber: nat, prevLogNumber: nat, tables: set<nat>, nextFile: nat)

  datatype FileName = Log(number: nat) | Table(number: nat)

  datatype WriterPhase = NotWriting | Logged(batch: Batch)

  datatype FlushPhase = NoFlush | Building(number: nat) | Built(number: nat) | FlushRecorded(number: nat)

  datatype CompactionPhase =
    | NoCompaction
    | Merging(inputs: set<nat>, outputs: set<nat>)
    | MergeRecorded(outputs: set<nat>)
    | Cleanup(outputs: set<nat>)

  datatype State = State(
    nextFileNumber: nat,
    logs: map<nat, LogFile>,
    tables: map<nat, set<Batch>>,
    manifest: Descriptor,
    logfileNumber: nat,
    mem: set<Batch>,
    imm: Option<set<Batch>>,
    current: Descriptor,
    oldVersions: seq<set<nat>>,
    pendingOutputs: set<nat>,
    filesToDelete: set<FileName>,
    writer: WriterPhase,
    flush: FlushPhase,
    compaction: CompactionPhase,
    history: set<Batch>,
    syncedHistory: set<Batch>)

  function Records(l: LogFile): set<Batch> {
    set b | b in l.records
  }

  function InTables(tables: map<nat, set<Batch>>, live: set<nat>): set<Batch> {
    set n, b | n in live && n in tables && b in tables[n] :: b
  }

  // ---------------------------------------------------------------------------------------------------------------
  // Steps of the front writer.

  predicate CanAddRecord(s: State, b: Batch) {
    s.writer.NotWriting? && s.logfileNumber in s.logs && b !in s.history
  }

  function AddRecord(s: State, b: Batch): State
    requires CanAddRecord(s, b)
  {
    var l := s.logs[s.logfileNumber];
    s.(logs := s.logs[s.logfileNumber := l.(records := l.records + [b])], history := s.history + {b},
       writer := Logged(b))
  }

  predicate CanSync(s: State) {
    s.writer.Logged? && s.logfileNumber in s.logs
  }

  /** `logfile_->Sync()`: all of the log so far outlives a crash. */
  function Sync(s: State): State
    requires CanSync(s)
  {
    var l := s.logs[s.logfileNumber];
    s.(logs := s.logs[s.logfileNumber := l.(synced := |l.records|)], syncedHistory := s.syncedHistory + Records(l))
  }

  function InsertInto(s: State): State
    requires s.writer.Logged?
  {
    s.(mem := s.mem + {s.writer.batch}, writer := NotWriting)
  }

  /** The last branch of `MakeRoomForWrite`; the front writer only gets there while it is not logging. */
  predicate CanSwitch(s: State) {
    s.writer.NotWriting? && s.imm.None? && s.current.prevLogNumber == 0
  }

  function Switch(s: State): State
    requires CanSwitch(s)
  {
    s.(logs := s.logs[s.nextFileNumber := LogFile([], 0)], logfileNumber := s.nextFileNumber,
       nextFileNumber := s.nextFileNumber + 1, imm := Some(s.mem), mem := {})
  }

  // ---------------------------------------------------------------------------------------------------------------
  // Steps of `CompactMemTable`. It may run in the middle of a merge, but not while that writes the descriptor.

  predicate CanStartFlush(s: State) {
    s.imm.Some? && s.flush.NoFlush? && (s.compaction.NoCompaction? || s.compaction.Merging?)
  }

  function StartFlush(s: State): State
    requires CanStartFlush(s)
  {
    s.(flush := Building(s.nextFileNumber), pendingOutputs := s.pendingOutputs + {s.nextFileNumber},
       nextFileNumber := s.nextFileNumber + 1)
  }

  /** `BuildTable`, which keeps no empty table; the number leaves `pending_outputs_` as soon as the table is there. */
  function BuildTable(s: State): State
    requires s.flush.Building? && s.imm.Some?
  {
    s.(tables := if s.imm.value == {} then s.tables else s.tables[s.flush.number := s.imm.value],
       pendingOutputs := s.pendingOutputs - {s.flush.number}, flush := Built(s.flush.number))
  }

  function FlushedTable(s: State): set<nat> {
    if Imm(s) == {} then {} else FlushNumber(s.flush)
  }

  /** The descriptor write of `LogAndApply`: the new table, if there is one, and earlier logs no longer needed. */
  function RecordFlush(s: State): State
    requires s.flush.Built?
  {
    s.(manifest := Descriptor(s.logfileNumber, 0, s.current.tables + FlushedTable(s), s.nextFileNumber),
       flush := FlushRecorded(s.flush.number))
  }

  /** The end of `LogAndApply` and of `CompactMemTable`. */
  function InstallFlush(s: State): State
    requires s.flush.FlushRecorded?
  {
    s.(oldVersions := s.oldVersions + [s.current.tables], current := s.manifest, imm := None, flush := NoFlush)
  }

  // ---------------------------------------------------------------------------------------------------------------
  // Steps of a merge of tables. What it may drop is not the concern here: its output holds what its input held.

  predicate CanStartMerge(s: State, inputs: set<nat>) {
    s.flush.NoFlush? && s.compaction.NoCompaction? && inputs <= s.current.tables
  }

  function StartMerge(s: State, inputs: set<nat>): State
    requires CanStartMerge(s, inputs)
  {
    s.(compaction := Merging(inputs, {}))
  }

  predicate CanMerge(s: State) {
    s.flush.NoFlush? && s.compaction.Merging?
  }

  /** `OpenCompactionOutputFile` and what is written to the file. */
  function WriteOutput(s: State, contents: set<Batch>): State
    requires CanMerge(s)
  {
    var n := s.nextFileNumber;
    s.(nextFileNumber := n + 1, pendingOutputs := s.pendingOutputs + {n}, tables := s.tables[n := contents],
       compaction := s.compaction.(outputs := s.compaction.outputs + {n}))
  }

  ghost predicate CanRecordMerge(s: State) {
    CanMerge(s) && InTables(s.tables, s.compaction.outputs) == InTables(s.tables, s.compaction.inputs)
  }

  /** The descriptor write; an edit without a log number keeps that of the version set. */
  ghost function RecordMerge(s: State): State
    requires CanRecordMerge(s)
  {
    s.(manifest := s.current.(tables := s.current.tables - s.compaction.inputs + s.compaction.outputs,
                              nextFile := s.nextFileNumber),
       compaction := MergeRecorded(s.compaction.outputs))
  }

  function InstallMerge(s: State): State
    requires s.compaction.MergeRecorded?
  {
    s.(oldVersions := s.oldVersions + [s.current.tables], current := s.manifest,
       compaction := Cleanup(s.compaction.outputs))
  }

  /** `CleanupCompaction`. */
  function CleanupMerge(s: State): State
    requires s.compaction.Cleanup?
  {
    s.(pendingOutputs := s.pendingOutputs - s.compaction.outputs, compaction := NoCompaction)
  }

  /** The last reader of an old version is done with it. */
  function UnrefVersion(s: State, i: nat): State
    requires i < |s.oldVersions|
  {
    s.(oldVersions := s.oldVersions[..i] + s.oldVersions[i + 1..])
  }

  // ---------------------------------------------------------------------------------------------------------------
  // Deleting files. The list is made under the mutex, by the background thread, and worked off later.

  function Live(s: State): set<nat> {
    s.pendingOutputs + s.current.tables + set v, n | v in s.oldVersions && n in v :: n
  }

  predicate Keep(s: State, f: FileName) {
    match f
    case Log(n) => n >= s.current.logNumber || n == s.current.prevLogNumber
    case Table(n) => n in Live(s)
  }

  predicate CanRemoveObsoleteFiles(s: State) {
    s.flush.NoFlush? && !s.compaction.MergeRecorded?
  }

  function AllFiles(s: State): set<FileName> {
    (set n | n in s.logs :: Log(n)) + (set n | n in s.tables :: Table(n))
  }

  function RemoveObsoleteFiles(s: State): State
    requires CanRemoveObsoleteFiles(s)
  {
    s.(filesToDelete := s.filesToDelete + set f | f in AllFiles(s) && !Keep(s, f))
  }

  function DeleteFile(s: State, f: FileName): State
    requires f in s.filesToDelete
  {
    match f
    case Log(n) => s.(logs := s.logs - {n}, filesToDelete := s.filesToDelete - {f})
    case Table(n) => s.(tables := s.tables - {n}, filesToDelete := s.filesToDelete - {f})
  }

  /** A file that nothing needs is listed, and then gone once the list is worked off. */
  lemma ObsoleteFilesGo(s: State, n: nat)
    requires CanRemoveObsoleteFiles(s)
    ensures n in s.tables && n !in s.current.tables && n !in s.pendingOutputs &&
            (forall i :: 0 <= i < |s.oldVersions| ==> n !in s.oldVersions[i]) ==>
              Table(n) in RemoveObsoleteFiles(s).filesToDelete &&
              n !in DeleteFile(RemoveObsoleteFiles(s), Table(n)).tables
    ensures n in s.logs && n < s.current.logNumber && n != s.current.prevLogNumber ==>
              Log(n) in RemoveObsoleteFiles(s).filesToDelete && n !in DeleteFile(RemoveObsoleteFiles(s), Log(n)).logs
  {
  }

  // ---------------------------------------------------------------------------------------------------------------
  // The invariant.

  function InFlight(s: State): set<Batch> {
    if s.writer.Logged? then {s.writer.batch} else {}
  }

  function Imm(s: State): set<Batch> {
    if s.imm.Some? then s.imm.value else {}
  }

  function FlushNumber(f: FlushPhase): set<nat> {
    match f
    case NoFlush => {}
    case Building(n) => {n}
    case Built(n) => {n}
    case FlushRecorded(n) => {n}
  }

  function MergeOutputs(c: CompactionPhase): set<nat> {
    match c
    case NoCompaction => {}
    case Merging(inputs, outputs) => outputs
    case MergeRecorded(outputs) => outputs
    case Cleanup(outputs) => outputs
  }

  /** Every number in use has been handed out. */
  ghost predicate Numbered(s: State) {
    && (forall n :: n in s.logs ==> 0 < n < s.nextFileNumber)
    && (forall n: nat :: n in s.tables || n in Needed(s) || Table(n) in s.filesToDelete ==> n < s.nextFileNumber)
    && s.current.logNumber <= s.logfileNumber && s.manifest.logNumber <= s.logfileNumber < s.nextFileNumber
    && s.manifest.logNumber < s.manifest.nextFile <= s.nextFileNumber
    && (forall n :: n in s.manifest.tables ==> n < s.manifest.nextFile)
  }

  /** Tables that some version, the descriptor or the background thread needs. */
  ghost function Needed(s: State): set<nat> {
    Live(s) + s.manifest.tables + FlushNumber(s.flush) + MergeOutputs(s.compaction)
  }

  /** Tables that have to be there. */
  ghost predicate TablesExist(s: State) {
    && s.current.tables <= s.tables.Keys && s.manifest.tables <= s.tables.Keys &&
         MergeOutputs(s.compaction) <= s.tables.Keys
    && (forall i :: 0 <= i < |s.oldVersions| ==> s.oldVersions[i] <= s.tables.Keys)
    && (s.compaction.Merging? ==> s.compaction.inputs <= s.current.tables)
    && MergeOutputs(s.compaction) <= s.pendingOutputs
  }

  /** No file that is still needed is to be deleted. */
  ghost predicate DeletionsSafe(s: State) {
    && (forall n: nat :: Log(n) in s.filesToDelete ==> n < s.current.logNumber && n < s.manifest.logNumber)
    && (forall n: nat :: Table(n) in s.filesToDelete ==> n !in Needed(s))
  }

  /** Where the background thread is, and what the descriptor then says. */
  ghost predicate PhasesOk(s: State) {
    && s.current.prevLogNumber == s.manifest.prevLogNumber == 0
    && (!s.flush.NoFlush? ==> s.imm.Some? && (s.compaction.NoCompaction? || s.compaction.Merging?))
    && (s.flush.Building? ==> s.flush.number !in s.tables)
    && (s.flush.Built? || s.flush.FlushRecorded? ==>
          FlushedTable(s) <= s.tables.Keys && InTables(s.tables, FlushedTable(s)) == Imm(s))
    && (if s.flush.FlushRecorded? then
          s.manifest.logNumber == s.logfileNumber && s.manifest.tables == s.current.tables + FlushedTable(s)
        else if s.compaction.MergeRecorded? then
          s.manifest.logNumber == s.current.logNumber && s.compaction.outputs <= s.manifest.tables &&
          InTables(s.tables, s.manifest.tables) == InTables(s.tables, s.current.tables)
        else
          s.manifest == s.current)
  }

  /** Nothing is anywhere that was not logged, and memory and tables together have all that was. */
  ghost predicate ContentsOk(s: State) {
    && s.logfileNumber in s.logs && Records(s.logs[s.logfileNumber]) == s.mem + InFlight(s)
    && s.history == InTables(s.tables, s.current.tables) + Imm(s) + s.mem + InFlight(s)
    && (forall n :: n in s.tables ==> s.tables[n] <= s.history)
    && (forall n :: n in s.logs ==> Records(s.logs[n]) <= s.history && s.logs[n].synced <= |s.logs[n].records|)
    && s.syncedHistory <= s.history
  }

  ghost predicate InSyncedPart(l: LogFile, b: Batch) {
    exists i :: 0 <= i < l.synced && i < |l.records| && l.records[i] == b
  }

  ghost predicate InLog(s: State, n: nat, b: Batch) {
    n in s.logs && n >= s.current.logNumber && b in s.logs[n].records
  }

  /** The immutable memtable is in logs that are kept until its table is in the version. */
  ghost predicate ImmLogged(s: State) {
    forall b :: b in Imm(s) ==> exists n: nat :: InLog(s, n, b)
  }

  ghost predicate SyncedIn(s: State, n: nat, b: Batch) {
    n in s.logs && n >= s.manifest.logNumber && InSyncedPart(s.logs[n], b)
  }

  /** A synced batch is in the synced part of its log, or in a table that the descriptor has. */
  ghost predicate SyncedKept(s: State) {
    s.logfileNumber in s.logs &&
    forall b :: b in s.syncedHistory ==>
      if b in s.logs[s.logfileNumber].records then InSyncedPart(s.logs[s.logfileNumber], b)
      else b in InTables(s.tables, s.manifest.tables) || exists n: nat :: SyncedIn(s, n, b)
  }

  ghost predicate NamesOk(s: State) {
    Numbered(s) && TablesExist(s) && DeletionsSafe(s)
  }

  ghost predicate Inv(s: State) {
    && NamesOk(s) && PhasesOk(s) && ContentsOk(s) && ImmLogged(s) && SyncedKept(s)
  }

  // ---------------------------------------------------------------------------------------------------------------
  // What the invariant means.

  /** Every logged batch is in a table of the current version or in a kept log. */
  lemma NoLostWrite(s: State, b: Batch)
    requires Inv(s) && b in s.history
    ensures b in InTables(s.tables, s.current.tables) || exists n: nat :: InLog(s, n, b)
  {
    if b in s.mem + InFlight(s) {
      assert b in Records(s.logs[s.logfileNumber]);
      assert InLog(s, s.logfileNumber, b);
    }
  }

  // ---------------------------------------------------------------------------------------------------------------
  // Runs.

  datatype Step =
    | AddRecordStep(b: Batch) | SyncStep | InsertStep | SwitchStep
    | StartFlushStep | BuildTableStep | RecordFlushStep | InstallFlushStep
    | StartMergeStep(inputs: set<nat>)
    | WriteOutputStep(contents: set<Batch>)
    | RecordMergeStep
    | InstallMergeStep
    | CleanupMergeStep
    | UnrefVersionStep(i: nat) | RemoveObsoleteFilesStep | DeleteFileStep(f: FileName)

  ghost predicate Enabled(s: State, step: Step) {
    match step
    case AddRecordStep(b) => CanAddRecord(s, b)
    case SyncStep => CanSync(s)
    case InsertStep => s.writer.Logged?
    case SwitchStep => CanSwitch(s)
    case StartFlushStep => CanStartFlush(s)
    case BuildTableStep => s.flush.Building? && s.imm.Some?
    case RecordFlushStep => s.flush.Built?
    case InstallFlushStep => s.flush.FlushRecorded?
    case StartMergeStep(inputs) => CanStartMerge(s, inputs)
    case WriteOutputStep(contents) => CanMerge(s) && contents <= InTables(s.tables, s.compaction.inputs)
    case RecordMergeStep => CanRecordMerge(s)
    case InstallMergeStep => s.compaction.MergeRecorded?
    case CleanupMergeStep => s.compaction.Cleanup?
    case UnrefVersionStep(i) => i < |s.oldVersions|
    case RemoveObsoleteFilesStep => CanRemoveObsoleteFiles(s)
    case DeleteFileStep(f) => f in s.filesToDelete
  }

  ghost function Next(s: State, step: Step): State
    requires Enabled(s, step)
  {
    match step
    case AddRecordStep(b) => AddRecord(s, b)
    case SyncStep => Sync(s)
    case InsertStep => InsertInto(s)
    case SwitchStep => Switch(s)
    case StartFlushStep => StartFlush(s)
    case BuildTableStep => BuildTable(s)
    case RecordFlushStep => RecordFlush(s)
    case InstallFlushStep => InstallFlush(s)
    case StartMergeStep(inputs) => StartMerge(s, inputs)
    case WriteOutputStep(contents) => WriteOutput(s, contents)
    case RecordMergeStep => RecordMerge(s)
    case InstallMergeStep => InstallMerge(s)
    case CleanupMergeStep => CleanupMerge(s)
    case UnrefVersionStep(i) => UnrefVersion(s, i)
    case RemoveObsoleteFilesStep => RemoveObsoleteFiles(s)
    case DeleteFileStep(f) => DeleteFile(s, f)
  }

  /** A database right after it was opened: the log is new, and the tables of the descriptor have all that is there. */
  function Opened(d: Descriptor, tables: map<nat, set<Batch>>, found: set<Batch>): State {
    State(d.nextFile, map[d.logNumber := LogFile([], 0)], tables, d, d.logNumber, {}, None, d, [], {}, {},
          NotWriting, NoFlush, NoCompaction, found, found)
  }

  ghost predicate CanOpen(d: Descriptor, tables: map<nat, set<Batch>>, found: set<Batch>) {
    && d.prevLogNumber == 0 && 0 < d.logNumber < d.nextFile && (forall n :: n in d.tables ==> n < d.nextFile)
    && d.tables == tables.Keys && InTables(tables, d.tables) == found
  }

  ghost predicate IsRun(s: State, steps: seq<Step>)
    decreases |steps|
  {
    steps == [] || (Enabled(s, steps[0]) && IsRun(Next(s, steps[0]), steps[1..]))
  }

  ghost function After(s: State, steps: seq<Step>): State
    requires IsRun(s, steps)
    decreases |steps|
  {
    if steps == [] then s else After(Next(s, steps[0]), steps[1..])
  }

  lemma OpenedIsGood(d: Descriptor, tables: map<nat, set<Batch>>, found: set<Batch>)
    requires CanOpen(d, tables, found)
    ensures Inv(Opened(d, tables, found))
  {
    var s := Opened(d, tables, found);
    assert Records(s.logs[d.logNumber]) == {};
    assert Live(s) == d.tables;
    assert forall n, b :: n in tables && b in tables[n] ==> b in InTables(tables, d.tables);
  }

  /** `NewDB` and the rest of `Open`: an empty database whose first log has number `n`. */
  lemma NewDatabaseIsGood(n: nat)
    requires n > 0
    ensures Inv(Opened(Descriptor(n, 0, {}, n + 1), map[], {}))
  {
    OpenedIsGood(Descriptor(n, 0, {}, n + 1), map[], {});
  }

  /** Every interleaving of the writer, the background thread and the readers keeps the invariant. */
  lemma {:induction false} RunsAreGood(s: State, steps: seq<Step>)
    requires Inv(s) && IsRun(s, steps)
    ensures Inv(After(s, steps))
    decreases |steps|
  {
    if steps != [] {
      StepIsGood(s, steps[0]);
      RunsAreGood(Next(s, steps[0]), steps[1..]);
    }
  }

  lemma StepIsGood(s: State, step: Step)
    requires Inv(s) && Enabled(s, step)
    ensures Inv(Next(s, step))
  {
    hide Inv;
    match step
    case AddRecordStep(b) => AddRecordIsGood(s, b);
    case SyncStep => SyncIsGood(s);
    case InsertStep => InsertIsGood(s);
    case SwitchStep => SwitchIsGood(s);
    case StartFlushStep => StartFlushIsGood(s);
    case BuildTableStep => BuildTableIsGood(s);
    case RecordFlushStep => RecordFlushIsGood(s);
    case InstallFlushStep => InstallFlushIsGood(s);
    case StartMergeStep(inputs) => StartMergeIsGood(s, inputs);
    case WriteOutputStep(contents) => WriteOutputIsGood(s, contents);
    case RecordMergeStep => RecordMergeIsGood(s);
    case InstallMergeStep => InstallMergeIsGood(s);
    case CleanupMergeStep => CleanupMergeIsGood(s);
    case UnrefVersionStep(i) => UnrefVersionIsGood(s, i);
    case RemoveObsoleteFilesStep => RemoveObsoleteFilesIsGood(s);
    case DeleteFileStep(f) => DeleteFileIsGood(s, f);
  }

  /** Steps that neither hand out a number nor need another table. */
  lemma NamesStay(s: State, t: State)
    requires NamesOk(s) && t.logs.Keys <= s.logs.Keys && t.filesToDelete <= s.filesToDelete
    requires t == s.(logs := t.logs, mem := t.mem, writer := t.writer, history := t.history,
                     syncedHistory := t.syncedHistory,
                     filesToDelete := t.filesToDelete)
    ensures NamesOk(t)
  {
    assert Live(t) == Live(s);
    hide Live;
    assert Needed(t) == Needed(s);
  }

  lemma AddRecordIsGood(s: State, b: Batch)
    requires Inv(s) && CanAddRecord(s, b)
    ensures Inv(AddRecord(s, b))
  {
    hide NamesOk, ImmLogged, SyncedKept, InTables;
    var t := AddRecord(s, b);
    var k := s.logfileNumber;
    NamesStay(s, t);
    assert t.logs[k].records[|s.logs[k].records|] == b;
    assert Records(t.logs[k]) == Records(s.logs[k]) + {b};
    LogsGrow(s, t, b);
  }

  /** The current log may get a record and lose none, and more of it may get synced. */
  lemma LogsGrow(s: State, t: State, b: Batch)
    requires ImmLogged(s) && SyncedKept(s) && b !in s.syncedHistory
    requires t == s.(logs := t.logs, history := t.history, writer := t.writer)
    requires t.logs.Keys == s.logs.Keys && forall n :: n in s.logs && n != s.logfileNumber ==> t.logs[n] == s.logs[n]
    requires s.logfileNumber in s.logs
    requires t.logs[s.logfileNumber].records == s.logs[s.logfileNumber].records + [b]
    requires s.logs[s.logfileNumber].synced <= t.logs[s.logfileNumber].synced
    ensures ImmLogged(t) && SyncedKept(t)
  {
    hide InTables;
    var k := s.logfileNumber;
    assert s.logs[k].records <= t.logs[k].records;
    assert Imm(t) == Imm(s);
    forall x | x in Imm(t) ensures exists n: nat :: InLog(t, n, x) {
      var n: nat :| InLog(s, n, x);
      assert InLog(t, n, x);
    }
    forall x | x in t.syncedHistory
      ensures if x in t.logs[k].records then InSyncedPart(t.logs[k], x)
              else x in InTables(t.tables, t.manifest.tables) || exists n: nat :: SyncedIn(t, n, x)
    {
      if x in t.logs[k].records {
        PrefixStays(s.logs[k], t.logs[k], x);
      } else if x !in InTables(s.tables, s.manifest.tables) {
        var n: nat :| SyncedIn(s, n, x);
        PrefixStays(s.logs[n], t.logs[n], x);
        assert SyncedIn(t, n, x);
      }
    }
  }

  lemma PrefixStays(l: LogFile, m: LogFile, b: Batch)
    requires InSyncedPart(l, b) && l.records <= m.records && l.synced <= m.synced
    ensures InSyncedPart(m, b)
  {
    var i :| 0 <= i < l.synced && i < |l.records| && l.records[i] == b;
    assert m.records[i] == b;
  }

  lemma SyncIsGood(s: State)
    requires Inv(s) && CanSync(s)
    ensures Inv(Sync(s))
  {
    hide NamesOk, ImmLogged, SyncedKept, InTables;
    var t := Sync(s);
    NamesStay(s, t);
    assert Records(t.logs[s.logfileNumber]) == Records(s.logs[s.logfileNumber]);
    SyncKeeps(s);
  }

  lemma SyncKeeps(s: State)
    requires ImmLogged(s) && SyncedKept(s) && CanSync(s)
    ensures ImmLogged(Sync(s)) && SyncedKept(Sync(s))
  {
    hide InTables;
    var t := Sync(s);
    var k := s.logfileNumber;
    assert Imm(t) == Imm(s);
    forall x | x in Imm(t) ensures exists n: nat :: InLog(t, n, x) {
      var n: nat :| InLog(s, n, x);
      assert InLog(t, n, x);
    }
    forall x | x in t.logs[k].records ensures InSyncedPart(t.logs[k], x) {
    }
    forall x | x in t.syncedHistory && x !in t.logs[k].records
      ensures x in InTables(t.tables, t.manifest.tables) || exists n: nat :: SyncedIn(t, n, x)
    {
      if x !in InTables(s.tables, s.manifest.tables) {
        var n: nat :| SyncedIn(s, n, x);
        assert n != k;
        assert SyncedIn(t, n, x);
      }
    }
  }

  lemma InsertIsGood(s: State)
    requires Inv(s) && s.writer.Logged?
    ensures Inv(InsertInto(s))
  {
    hide NamesOk, ImmLogged, SyncedKept, InTables, Records;
    var t := InsertInto(s);
    NamesStay(s, t);
    ImmStays(s, t);
    SyncedStays(s, t);
  }

  /** Steps that leave the logs and the descriptor's log number alone. */
  lemma ImmStays(s: State, t: State)
    requires ImmLogged(s) && t.logs == s.logs && t.current.logNumber == s.current.logNumber && Imm(t) <= Imm(s)
    ensures ImmLogged(t)
  {
    forall x | x in Imm(t) ensures exists n: nat :: InLog(t, n, x) {
      var n: nat :| InLog(s, n, x);
      assert InLog(t, n, x);
    }
  }

  lemma SyncedStays(s: State, t: State)
    requires SyncedKept(s) && t.logs == s.logs && t.manifest.logNumber == s.manifest.logNumber
    requires t.logfileNumber == s.logfileNumber && t.syncedHistory == s.syncedHistory
    requires InTables(s.tables, s.manifest.tables) <= InTables(t.tables, t.manifest.tables)
    ensures SyncedKept(t)
  {
    hide InTables;
    forall x | x in t.syncedHistory && x !in t.logs[t.logfileNumber].records &&
        x !in InTables(t.tables, t.manifest.tables)
      ensures exists n: nat :: SyncedIn(t, n, x)
    {
      var n: nat :| SyncedIn(s, n, x);
      assert SyncedIn(t, n, x);
    }
  }

  lemma SwitchIsGood(s: State)
    requires Inv(s) && CanSwitch(s)
    ensures Inv(Switch(s))
  {
    var t := Switch(s);
    assert Records(t.logs[t.logfileNumber]) == {};
    forall n: nat | n in t.logs && n != t.logfileNumber ensures t.logs[n] == s.logs[n] {
    }
    SwitchNames(s);
    SwitchKeeps(s);
  }

  lemma SwitchNames(s: State)
    requires NamesOk(s) && CanSwitch(s) && s.logfileNumber in s.logs
    ensures NamesOk(Switch(s))
  {
  }

  lemma SwitchKeeps(s: State)
    requires SyncedKept(s) && CanSwitch(s) && s.mem <= Records(s.logs[s.logfileNumber])
    requires s.manifest.logNumber <= s.logfileNumber && s.current.logNumber <= s.logfileNumber
    requires s.nextFileNumber !in s.logs
    ensures ImmLogged(Switch(s)) && SyncedKept(Switch(s))
  {
    hide InTables;
    var t, k := Switch(s), s.logfileNumber;
    forall x | x in Imm(t) ensures exists n: nat :: InLog(t, n, x) {
      assert x in Records(s.logs[k]);
      assert InLog(t, k, x);
    }
    forall x | x in t.syncedHistory
      ensures x in InTables(t.tables, t.manifest.tables) || exists n: nat :: SyncedIn(t, n, x)
    {
      if x in s.logs[k].records {
        assert SyncedIn(t, k, x);
      } else if x !in InTables(s.tables, s.manifest.tables) {
        var n: nat :| SyncedIn(s, n, x);
        assert SyncedIn(t, n, x);
      }
    }
  }

  lemma StartFlushIsGood(s: State)
    requires Inv(s) && CanStartFlush(s)
    ensures Inv(StartFlush(s))
  {
    hide NamesOk, ImmLogged, SyncedKept, InTables, Records;
    var t := StartFlush(s);
    StartFlushNames(s);
    ImmStays(s, t);
    SyncedStays(s, t);
  }

  lemma StartFlushNames(s: State)
    requires NamesOk(s) && CanStartFlush(s)
    ensures NamesOk(StartFlush(s)) && s.nextFileNumber !in s.tables
  {
    var t := StartFlush(s);
    assert forall n: nat :: n in Live(t) ==> n in Live(s) || n == s.nextFileNumber;
    assert forall n: nat :: n in Needed(t) ==> n in Needed(s) || n == s.nextFileNumber;
    hide Needed, Live;
  }

  lemma BuildTableIsGood(s: State)
    requires Inv(s) && s.flush.Building? && s.imm.Some?
    ensures Inv(BuildTable(s))
  {
    hide NamesOk, ImmLogged, SyncedKept, Records;
    var t := BuildTable(s);
    BuildTableNames(s);
    TablesGrow(s.tables, t.tables, s.current.tables);
    assert Imm(t) == Imm(s);
    assert InTables(t.tables, FlushedTable(t)) == Imm(t) by {
      if Imm(t) != {} { assert FlushedTable(t) == {s.flush.number} && t.tables[s.flush.number] == Imm(t); }
    }
    hide InTables;
    ImmStays(s, t);
    SyncedStays(s, t);
  }

  lemma BuildTableNames(s: State)
    requires NamesOk(s) && s.flush.Building? && s.imm.Some? && s.flush.number !in s.tables
    ensures NamesOk(BuildTable(s)) && s.current.tables <= s.tables.Keys
  {
    var t := BuildTable(s);
    assert Live(t) <= Live(s);
    assert s.flush.number in Needed(s) && Needed(t) <= Needed(s);
    hide Needed, Live;
  }

  /** More tables change nothing about what those hold that were there. */
  lemma TablesGrow(before: map<nat, set<Batch>>, after: map<nat, set<Batch>>, live: set<nat>)
    requires live <= before.Keys <= after.Keys && forall n :: n in live ==> after[n] == before[n]
    ensures InTables(after, live) == InTables(before, live)
  {
  }

  lemma RecordFlushIsGood(s: State)
    requires Inv(s) && s.flush.Built?
    ensures Inv(RecordFlush(s))
  {
    hide NamesOk, ImmLogged, InTables;
    var t := RecordFlush(s);
    RecordFlushNames(s);
    TogetherHold(s.tables, s.current.tables, FlushedTable(s));
    ImmStays(s, t);
    forall x | x in t.syncedHistory && x !in t.logs[t.logfileNumber].records
      ensures x in InTables(t.tables, t.manifest.tables)
    {
      assert x !in Records(s.logs[s.logfileNumber]);
    }
  }

  lemma RecordFlushNames(s: State)
    requires NamesOk(s) && s.flush.Built? && FlushedTable(s) <= s.tables.Keys
    ensures NamesOk(RecordFlush(s))
  {
    var t := RecordFlush(s);
    assert Live(t) == Live(s);
    hide Live;
    assert FlushedTable(s) <= FlushNumber(s.flush) == FlushNumber(t.flush);
    assert s.current.tables <= Needed(s) by { CurrentIsLive(s); }
    assert Needed(t) <= Needed(s);
    hide Needed;
  }

  lemma CurrentIsLive(s: State)
    ensures s.current.tables <= Live(s)
  {
  }

  lemma TogetherHold(tables: map<nat, set<Batch>>, live: set<nat>, more: set<nat>)
    ensures InTables(tables, live + more) == InTables(tables, live) + InTables(tables, more)
  {
  }

  lemma InstallFlushIsGood(s: State)
    requires Inv(s) && s.flush.FlushRecorded?
    ensures Inv(InstallFlush(s))
  {
    hide NamesOk, ImmLogged, SyncedKept, InTables, Records;
    var t := InstallFlush(s);
    InstallFlushNames(s);
    TogetherHold(s.tables, s.current.tables, FlushedTable(s));
    SyncedStays(s, t);
    assert ImmLogged(t) by { NothingToLog(t); }
  }

  lemma NothingToLog(s: State)
    requires s.imm.None?
    ensures ImmLogged(s)
  {
  }

  lemma InstallFlushNames(s: State)
    requires NamesOk(s) && s.flush.FlushRecorded? && s.current.tables <= s.manifest.tables
    ensures NamesOk(InstallFlush(s))
  {
    LiveAfterInstall(s, InstallFlush(s));
    hide Live;
    assert Needed(InstallFlush(s)) <= Needed(s);
    hide Needed;
  }

  lemma LiveAfterInstall(s: State, t: State)
    requires t.oldVersions == s.oldVersions + [s.current.tables] && t.current == s.manifest
    requires t.pendingOutputs == s.pendingOutputs
    ensures Live(t) <= Live(s) + s.manifest.tables
  {
  }

  lemma StartMergeIsGood(s: State, inputs: set<nat>)
    requires Inv(s) && CanStartMerge(s, inputs)
    ensures Inv(StartMerge(s, inputs))
  {
    hide NamesOk, ImmLogged, SyncedKept, InTables, Records;
    var t := StartMerge(s, inputs);
    StartMergeNames(s, inputs);
    ImmStays(s, t);
    SyncedStays(s, t);
  }

  lemma StartMergeNames(s: State, inputs: set<nat>)
    requires NamesOk(s) && CanStartMerge(s, inputs)
    ensures NamesOk(StartMerge(s, inputs))
  {
    var t := StartMerge(s, inputs);
    assert Live(t) == Live(s);
    hide Live;
    assert Needed(t) == Needed(s);
  }

  lemma WriteOutputIsGood(s: State, contents: set<Batch>)
    requires Inv(s) && CanMerge(s) && contents <= InTables(s.tables, s.compaction.inputs)
    ensures Inv(WriteOutput(s, contents))
  {
    hide NamesOk, ImmLogged, SyncedKept, Records;
    var t := WriteOutput(s, contents);
    WriteOutputNames(s, contents);
    TablesGrow(s.tables, t.tables, s.current.tables);
    assert contents <= InTables(s.tables, s.current.tables);
    hide InTables;
    ImmStays(s, t);
    SyncedStays(s, t);
  }

  lemma WriteOutputNames(s: State, contents: set<Batch>)
    requires NamesOk(s) && CanMerge(s)
    ensures NamesOk(WriteOutput(s, contents)) && s.current.tables <= s.tables.Keys && s.nextFileNumber !in s.tables
    ensures s.compaction.inputs <= s.current.tables
  {
    var t := WriteOutput(s, contents);
    assert forall n: nat :: n in Live(t) ==> n in Live(s) || n == s.nextFileNumber;
    hide Live;
    assert forall n: nat :: n in Needed(t) ==> n in Needed(s) || n == s.nextFileNumber;
    hide Needed;
  }

  lemma RecordMergeIsGood(s: State)
    requires Inv(s) && CanRecordMerge(s)
    ensures Inv(RecordMerge(s))
  {
    hide NamesOk, ImmLogged, SyncedKept, InTables, Records;
    var t := RecordMerge(s);
    RecordMergeNames(s);
    Exchanged(s.tables, s.current.tables, s.compaction.inputs, s.compaction.outputs);
    ImmStays(s, t);
    SyncedStays(s, t);
  }

  lemma RecordMergeNames(s: State)
    requires NamesOk(s) && CanRecordMerge(s) && s.manifest == s.current
    ensures NamesOk(RecordMerge(s)) && s.compaction.inputs <= s.current.tables
  {
    hide InTables;
    assert Needed(RecordMerge(s)) <= Needed(s);
  }

  /** Writing the inputs' contents to the outputs and swapping the two leaves the whole as it was. */
  lemma Exchanged(tables: map<nat, set<Batch>>, live: set<nat>, inputs: set<nat>, outputs: set<nat>)
    requires inputs <= live && InTables(tables, outputs) == InTables(tables, inputs)
    ensures InTables(tables, live - inputs + outputs) == InTables(tables, live)
  {
    TogetherHold(tables, live - inputs, outputs);
    TogetherHold(tables, live - inputs, inputs);
    assert live - inputs + inputs == live;
  }

  lemma InstallMergeIsGood(s: State)
    requires Inv(s) && s.compaction.MergeRecorded?
    ensures Inv(InstallMerge(s))
  {
    hide NamesOk, ImmLogged, SyncedKept, InTables, Records;
    var t := InstallMerge(s);
    InstallMergeNames(s);
    ImmStays(s, t);
    SyncedStays(s, t);
  }

  lemma InstallMergeNames(s: State)
    requires NamesOk(s) && s.compaction.MergeRecorded?
    ensures NamesOk(InstallMerge(s))
  {
    LiveAfterInstall(s, InstallMerge(s));
    hide Live;
    assert Needed(InstallMerge(s)) <= Needed(s);
    hide Needed;
  }

  lemma CleanupMergeIsGood(s: State)
    requires Inv(s) && s.compaction.Cleanup?
    ensures Inv(CleanupMerge(s))
  {
    hide NamesOk, ImmLogged, SyncedKept, InTables, Records;
    var t := CleanupMerge(s);
    CleanupMergeNames(s);
    ImmStays(s, t);
    SyncedStays(s, t);
  }

  lemma CleanupMergeNames(s: State)
    requires NamesOk(s) && s.compaction.Cleanup?
    ensures NamesOk(CleanupMerge(s))
  {
    var t := CleanupMerge(s);
    assert Live(t) <= Live(s);
    hide Live;
    assert Needed(t) <= Needed(s);
  }

  lemma UnrefVersionIsGood(s: State, i: nat)
    requires Inv(s) && i < |s.oldVersions|
    ensures Inv(UnrefVersion(s, i))
  {
    hide NamesOk, ImmLogged, SyncedKept, InTables, Records;
    var t := UnrefVersion(s, i);
    UnrefVersionNames(s, i);
    ImmStays(s, t);
    SyncedStays(s, t);
  }

  lemma UnrefVersionNames(s: State, i: nat)
    requires NamesOk(s) && i < |s.oldVersions|
    ensures NamesOk(UnrefVersion(s, i))
  {
    var t := UnrefVersion(s, i);
    forall j | 0 <= j < |t.oldVersions|
      ensures t.oldVersions[j] in s.oldVersions && t.oldVersions[j] <= s.tables.Keys
    {
      assert t.oldVersions[j] == s.oldVersions[if j < i then j else j + 1];
    }
    assert Live(t) <= Live(s);
    hide Live;
    assert Needed(t) <= Needed(s);
  }

  lemma RemoveObsoleteFilesIsGood(s: State)
    requires Inv(s) && CanRemoveObsoleteFiles(s)
    ensures Inv(RemoveObsoleteFiles(s))
  {
    hide NamesOk, ImmLogged, SyncedKept, InTables, Records;
    var t := RemoveObsoleteFiles(s);
    RemoveObsoleteFilesNames(s);
    ImmStays(s, t);
    SyncedStays(s, t);
  }

  lemma RemoveObsoleteFilesNames(s: State)
    requires NamesOk(s) && PhasesOk(s) && CanRemoveObsoleteFiles(s)
    ensures NamesOk(RemoveObsoleteFiles(s))
  {
    hide InTables;
    var t := RemoveObsoleteFiles(s);
    assert Live(t) == Live(s) && Needed(s) <= Live(s);
    hide Live;
    assert forall n: nat :: Table(n) in t.filesToDelete ==> n !in Needed(s);
    assert Needed(t) == Needed(s);
  }

  lemma DeleteFileIsGood(s: State, f: FileName)
    requires Inv(s) && f in s.filesToDelete
    ensures Inv(DeleteFile(s, f))
  {
    if f.Table? {
      DeleteTableIsGood(s, f.number);
    } else {
      DeleteLogIsGood(s, f.number);
    }
  }

  lemma DeleteTableIsGood(s: State, n: nat)
    requires Inv(s) && Table(n) in s.filesToDelete
    ensures Inv(DeleteFile(s, Table(n)))
  {
    hide NamesOk, ImmLogged, SyncedKept, InTables, Records;
    var t := DeleteFile(s, Table(n));
    DeleteTableNames(s, n);
    TablesGrow(t.tables, s.tables, s.current.tables);
    TablesGrow(t.tables, s.tables, s.manifest.tables);
    if s.flush.Built? || s.flush.FlushRecorded? { TablesGrow(t.tables, s.tables, FlushedTable(s)); }
    ImmStays(s, t);
    SyncedStays(s, t);
  }

  lemma DeleteTableNames(s: State, n: nat)
    requires NamesOk(s) && Table(n) in s.filesToDelete
    ensures NamesOk(DeleteFile(s, Table(n))) && n !in FlushNumber(s.flush)
    ensures s.current.tables <= s.tables.Keys - {n} && s.manifest.tables <= s.tables.Keys - {n}
  {
  }

  lemma DeleteLogIsGood(s: State, k: nat)
    requires Inv(s) && Log(k) in s.filesToDelete
    ensures Inv(DeleteFile(s, Log(k)))
  {
    hide InTables, ImmLogged, SyncedKept, Records;
    var t := DeleteFile(s, Log(k));
    assert s.current.logNumber <= s.logfileNumber && k < s.current.logNumber && k < s.manifest.logNumber;
    NamesStay(s, t);
    hide NamesOk;
    DeleteLogKeeps(s, k);
  }

  lemma DeleteLogKeeps(s: State, k: nat)
    requires ImmLogged(s) && SyncedKept(s) && Log(k) in s.filesToDelete && s.current.logNumber <= s.logfileNumber
    requires k < s.current.logNumber && k < s.manifest.logNumber
    ensures ImmLogged(DeleteFile(s, Log(k))) && SyncedKept(DeleteFile(s, Log(k)))
  {
    hide InTables;
    var t := DeleteFile(s, Log(k));
    assert Imm(t) == Imm(s);
    forall x | x in Imm(t) ensures exists n: nat :: InLog(t, n, x) {
      var n: nat :| InLog(s, n, x);
      assert InLog(t, n, x);
    }
    forall x | x in t.syncedHistory && x !in t.logs[t.logfileNumber].records &&
        x !in InTables(t.tables, t.manifest.tables)
      ensures exists n: nat :: SyncedIn(t, n, x)
    {
      var n: nat :| SyncedIn(s, n, x);
      assert SyncedIn(t, n, x);
    }
  }
}
