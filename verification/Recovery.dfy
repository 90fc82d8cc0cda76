/**
 Crashes and recovery: what a crash may leave of the files, how `DBImpl::Recover` and `RecoverLogFile` make a database
 of them again, and why a synced write outlives any number of crashes, be they in the middle of a recovery. The last log
 is never reused (`reuse_logs` is off).
 */
module Recovery {
  import opened Basics
  import opened Durability

  /** The files: what outlives the process. */
  datatype Disk = Disk(manifest: Descriptor, tables: map<nat, set<Batch>>, logs: map<nat, LogFile>)

  function OnDisk(s: State): Disk {
    Disk(s.manifest, s.tables, s.logs)
  }

  /** The logs that recovery reads. */
  predicate NeedsLog(d: Descriptor, n: nat) {
    n >= d.logNumber || n == d.prevLogNumber
  }

  ghost predicate FoundIn(d: Disk, n: nat, b: Batch) {
    n in d.logs && NeedsLog(d.manifest, n) && b in d.logs[n].records
  }

  ghost function LoggedBatches(d: Disk): set<Batch> {
    set n, b | n in d.logs && NeedsLog(d.manifest, n) && b in d.logs[n].records :: b
  }

  /** The tables of the descriptor, and the logs from its log number on. */
  ghost function Recovered(d: Disk): set<Batch> {
    InTables(d.tables, d.manifest.tables) + LoggedBatches(d)
  }

  ghost predicate SyncedIn(d: Disk, n: nat, b: Batch) {
    n in d.logs && NeedsLog(d.manifest, n) && InSyncedPart(d.logs[n], b)
  }

  /** A crash cannot take this batch away. */
  ghost predicate Safe(d: Disk, b: Batch) {
    b in InTables(d.tables, d.manifest.tables) || exists n: nat :: SyncedIn(d, n, b)
  }

  /** The tables of the descriptor are there, and its next file number is above all it needs. */
  ghost predicate NamesOk(d: Disk) {
    && d.manifest.prevLogNumber == 0 && d.manifest.logNumber < d.manifest.nextFile
    && d.manifest.tables <= d.tables.Keys && (forall n :: n in d.manifest.tables ==> n < d.manifest.nextFile)
    && (forall n :: n in d.logs ==> n > 0 && d.logs[n].synced <= |d.logs[n].records|)
  }

  /** The files as they may be found: with all of `must`, and nothing but `may`. */
  ghost predicate DiskOk(d: Disk, must: set<Batch>, may: set<Batch>) {
    NamesOk(d) && (forall b :: b in must ==> Safe(d, b)) && Recovered(d) <= may
  }

  lemma OpenDiskIsOk(s: State)
    requires Inv(s)
    ensures DiskOk(OnDisk(s), s.syncedHistory, s.history)
  {
    var d := OnDisk(s);
    hide InTables;
    forall b | b in s.syncedHistory ensures Safe(d, b) {
      if b in s.logs[s.logfileNumber].records {
        assert SyncedIn(d, s.logfileNumber, b);
      } else if b !in InTables(s.tables, s.manifest.tables) {
        var n: nat :| Durability.SyncedIn(s, n, b);
        assert SyncedIn(d, n, b);
      }
    }
    forall b | b in Recovered(d) ensures b in s.history { RecoveredWasLogged(s, b); }
  }

  lemma RecoveredWasLogged(s: State, b: Batch)
    requires ContentsOk(s) && b in Recovered(OnDisk(s))
    ensures b in s.history
  {
    if n: nat :| FoundIn(OnDisk(s), n, b) {
      assert b in Records(s.logs[n]);
    }
  }

  // ---------------------------------------------------------------------------------------------------------------
  // Crashes.

  /** What a crash leaves: of every log at least what was synced, and no less than whole records of the rest. */
  ghost predicate Crashed(d: Disk, d': Disk) {
    && d'.manifest == d.manifest && d'.tables == d.tables && d'.logs.Keys == d.logs.Keys
    && forall n :: n in d.logs ==> LogCut(d.logs[n], d'.logs[n])
  }

  ghost predicate LogCut(l: LogFile, l': LogFile) {
    l'.records <= l.records && l.synced == l'.synced <= |l'.records|
  }

  lemma CrashKeepsDisk(d: Disk, d': Disk, must: set<Batch>, may: set<Batch>)
    requires DiskOk(d, must, may) && Crashed(d, d')
    ensures DiskOk(d', must, may)
  {
    hide InTables;
    forall b | b in must ensures Safe(d', b) {
      assert Safe(d, b);
      if b !in InTables(d.tables, d.manifest.tables) {
        var n: nat :| SyncedIn(d, n, b);
        var i :| 0 <= i < d.logs[n].synced && i < |d.logs[n].records| && d.logs[n].records[i] == b;
        assert d'.logs[n].records[i] == b;
        assert SyncedIn(d', n, b);
      }
    }
    forall b | b in LoggedBatches(d') ensures b in LoggedBatches(d) {
      var n: nat :| n in d'.logs && NeedsLog(d'.manifest, n) && b in d'.logs[n].records;
      var i :| 0 <= i < |d'.logs[n].records| && d'.logs[n].records[i] == b;
      assert d.logs[n].records[i] == b;
      assert FoundIn(d, n, b);
    }
  }

  /** Files may come and go that recovery would not look at, and an empty log may come. */
  ghost predicate SameNeeded(d: Disk, d': Disk) {
    && d'.manifest == d.manifest
    && (forall n :: n in d.manifest.tables && n in d.tables ==> n in d'.tables && d'.tables[n] == d.tables[n])
    && (forall n :: n in d.logs && NeedsLog(d.manifest, n) ==> n in d'.logs && d'.logs[n] == d.logs[n])
    && (forall n :: n in d'.logs && NeedsLog(d.manifest, n) && n !in d.logs ==> d'.logs[n] == LogFile([], 0))
    && (forall n :: n in d'.logs ==> n > 0 && d'.logs[n].synced <= |d'.logs[n].records|)
  }

  lemma SameNeededKeepsDisk(d: Disk, d': Disk, must: set<Batch>, may: set<Batch>)
    requires DiskOk(d, must, may) && SameNeeded(d, d')
    ensures DiskOk(d', must, may)
  {
    assert InTables(d'.tables, d.manifest.tables) == InTables(d.tables, d.manifest.tables);
    hide InTables;
    forall b ensures b in LoggedBatches(d') <==> b in LoggedBatches(d) {
      if n: nat :| FoundIn(d, n, b) { assert FoundIn(d', n, b); }
      if n: nat :| FoundIn(d', n, b) { assert FoundIn(d, n, b); }
    }
    forall b | b in must ensures Safe(d', b) {
      assert Safe(d, b);
      if b !in InTables(d.tables, d.manifest.tables) {
        var n: nat :| SyncedIn(d, n, b);
        assert SyncedIn(d', n, b);
      }
    }
  }

  /**
   A crash at any point: recovery finds all synced batches and none that was not logged; and all that were logged if the
   crash spared the logs.
   */
  lemma CrashRecovers(s: State, d: Disk)
    requires Inv(s) && Crashed(OnDisk(s), d)
    ensures s.manifest.tables <= s.tables.Keys
    ensures s.syncedHistory <= Recovered(d) <= s.history
    ensures d == OnDisk(s) ==> Recovered(d) == s.history
  {
    OpenDiskIsOk(s);
    CrashKeepsDisk(OnDisk(s), d, s.syncedHistory, s.history);
    SafeIsRecovered(d, s.syncedHistory, s.history);
    if d == OnDisk(s) {
      forall b | b in s.history ensures b in Recovered(d) { LoggedRecovered(s, b); }
    }
  }

  lemma SafeIsRecovered(d: Disk, must: set<Batch>, may: set<Batch>)
    requires DiskOk(d, must, may)
    ensures must <= Recovered(d)
  {
    hide InTables;
    forall b | b in must ensures b in Recovered(d) {
      assert Safe(d, b);
      if b !in InTables(d.tables, d.manifest.tables) {
        var n: nat :| SyncedIn(d, n, b);
        assert FoundIn(d, n, b);
      }
    }
  }

  lemma LoggedRecovered(s: State, b: Batch)
    requires Inv(s) && b in s.history
    ensures b in Recovered(OnDisk(s))
  {
    if b in s.mem + InFlight(s) {
      assert b in Records(s.logs[s.logfileNumber]);
      assert FoundIn(OnDisk(s), s.logfileNumber, b);
    } else if b in Imm(s) && !s.flush.FlushRecorded? {
      var n: nat :| InLog(s, n, b);
      assert FoundIn(OnDisk(s), n, b);
    } else if b in Imm(s) {
      assert b in InTables(s.tables, FlushedTable(s));
    }
  }

  // ---------------------------------------------------------------------------------------------------------------
  // Recovery.

  lemma {:induction false} Least(ns: set<nat>) returns (n: nat)
    requires ns != {}
    ensures n in ns && forall m :: m in ns ==> n <= m
    decreases ns
  {
    n :| n in ns;
    if ns != {n} {
      var k := Least(ns - {n});
      assert forall m :: m in ns ==> m == n || m in ns - {n};
      if k < n { n := k; }
    }
  }

  /** The numbers of the logs to read, in the order in which the logs were made. */
  method LogsToRecover(d: Disk) returns (numbers: seq<nat>)
    ensures forall n :: n in numbers <==> n in d.logs && NeedsLog(d.manifest, n)
    ensures forall i, j :: 0 <= i < j < |numbers| ==> numbers[i] < numbers[j]
  {
    var rest := set n | n in d.logs && NeedsLog(d.manifest, n);
    numbers := [];
    while rest != {}
      invariant forall n :: n in numbers || n in rest <==> n in d.logs && NeedsLog(d.manifest, n)
      invariant forall i, j :: 0 <= i < j < |numbers| ==> numbers[i] < numbers[j]
      invariant forall m, n :: m in numbers && n in rest ==> m < n
      decreases rest
    {
      ghost var least := Least(rest);
      var n :| n in rest && forall m :: m in rest ==> n <= m;
      assert forall m :: m in numbers + [n] <==> m in numbers || m == n;
      forall i | 0 <= i < |numbers| ensures numbers[i] < n {
        assert numbers[i] in numbers;
      }
      numbers, rest := numbers + [n], rest - {n};
    }
  }

  /** What recovery works on: the tables on disk, those it has written, and the file numbers. */
  datatype Progress = Progress(tables: map<nat, set<Batch>>, added: set<nat>, next: nat)

  /** The tables of the descriptor are untouched, and those written have exactly `done`. */
  ghost predicate ProgressOk(d: Disk, p: Progress, done: set<Batch>) {
    && d.manifest.nextFile < p.next
    && SameNeeded(d, Disk(d.manifest, p.tables, d.logs))
    && (forall n :: n in p.added ==> d.manifest.nextFile < n < p.next && n in p.tables)
    && InTables(p.tables, p.added) == done
  }

  function WithTable(p: Progress, mem: set<Batch>): Progress {
    if mem == {} then p.(next := p.next + 1)
    else Progress(p.tables[p.next := mem], p.added + {p.next}, p.next + 1)
  }

  /** `WriteLevel0Table`; a memtable with nothing in it leaves no file. */
  method WriteLevel0Table(ghost d: Disk, p: Progress, mem: set<Batch>, ghost done: set<Batch>) returns (p': Progress)
    requires ProgressOk(d, p, done) && forall n :: n in d.manifest.tables ==> n < d.manifest.nextFile
    ensures ProgressOk(d, p', done + mem) && p' == WithTable(p, mem)
  {
    if mem == {} {
      return p.(next := p.next + 1);
    }
    p' := Progress(p.tables[p.next := mem], p.added + {p.next}, p.next + 1);
    forall b ensures b in InTables(p'.tables, p'.added) <==> b in done || b in mem {
      if b in InTables(p.tables, p.added) {
        var n :| n in p.added && n in p.tables && b in p.tables[n];
        assert n in p'.added && b in p'.tables[n];
      }
      if b in mem { assert p.next in p'.added && b in p'.tables[p.next]; }
    }
  }

  // The tables that one log becomes: each of a run of its records, closed as soon as the memtable was full.

  ghost function Run(records: seq<Batch>, from: nat, to: nat): set<Batch>
    requires from <= to <= |records|
  {
    set b | b in records[from..to]
  }

  ghost predicate IsFull(records: seq<Batch>, full: set<Batch> -> bool, from: nat, to: nat)
    requires from <= to <= |records|
  {
    full(Run(records, from, to))
  }

  ghost predicate NotFullBefore(records: seq<Batch>, full: set<Batch> -> bool, from: nat, to: nat)
    requires from <= to <= |records| + 1
  {
    forall k :: from < k < to ==> !IsFull(records, full, from, k)
  }

  /** From one cut to the next: full at the end, unless that is the end of the log, and never before. */
  ghost predicate RunOk(records: seq<Batch>, full: set<Batch> -> bool, cuts: seq<nat>, j: nat)
    requires j + 1 < |cuts|
  {
    && cuts[j] < cuts[j + 1] <= |records| && NotFullBefore(records, full, cuts[j], cuts[j + 1])
    && (cuts[j + 1] < |records| ==> IsFull(records, full, cuts[j], cuts[j + 1]))
  }

  ghost predicate CutWhenFull(records: seq<Batch>, full: set<Batch> -> bool, cuts: seq<nat>) {
    |cuts| > 0 && cuts[0] == 0 && forall j :: 0 <= j < |cuts| - 1 ==> RunOk(records, full, cuts, j)
  }

  ghost predicate RunWritten(first: nat, p': Progress, records: seq<Batch>, cuts: seq<nat>, j: nat)
    requires j + 1 < |cuts|
  {
    && cuts[j] <= cuts[j + 1] <= |records| && first + j in p'.tables
    && p'.tables[first + j] == Run(records, cuts[j], cuts[j + 1])
  }

  /** The table at place `j` has the records from one cut to the next, and no other has been written. */
  ghost predicate TablesOf(p: Progress, p': Progress, records: seq<Batch>, cuts: seq<nat>) {
    && |cuts| > 0 && p'.next == p.next + |cuts| - 1
    && (forall n :: n in p'.added <==> n in p.added || p.next <= n < p'.next)
    && forall j :: 0 <= j < |cuts| - 1 ==> RunWritten(p.next, p', records, cuts, j)
  }

  /** Where recovering a log is after `i` records: the memtable has those since the last cut, and has not been full. */
  ghost predicate CutSoFar(p: Progress, p': Progress, records: seq<Batch>, full: set<Batch> -> bool, cuts: seq<nat>,
                           i: nat, mem: Option<set<Batch>>) {
    && CutWhenFull(records, full, cuts) && TablesOf(p, p', records, cuts)
    && var last := cuts[|cuts| - 1];
       last <= i <= |records| && NotFullBefore(records, full, last, i + 1) &&
       mem == if last < i then Some(Run(records, last, i)) else None
  }

  lemma NoCut(p: Progress, records: seq<Batch>, full: set<Batch> -> bool)
    ensures CutSoFar(p, p, records, full, [0], 0, None)
  {
  }

  lemma OneMoreInRun(p: Progress, p': Progress, records: seq<Batch>, full: set<Batch> -> bool, cuts: seq<nat>, i: nat,
                     mem: Option<set<Batch>>)
    requires CutSoFar(p, p', records, full, cuts, i, mem) && i < |records|
    ensures var mem' := (if mem.Some? then mem.value else {}) + {records[i]};
            if full(mem') then CutSoFar(p, WithTable(p', mem'), records, full, cuts + [i + 1], i + 1, None)
            else CutSoFar(p, p', records, full, cuts, i + 1, Some(mem'))
  {
    var last, mem' := cuts[|cuts| - 1], (if mem.Some? then mem.value else {}) + {records[i]};
    assert records[last..i + 1] == records[last..i] + [records[i]];
    assert Run(records, last, i + 1) == mem';
    hide Run, CutWhenFull, TablesOf;
    if full(mem') {
      CutAt(records, full, cuts, i + 1);
      OneMoreTable(p, p', records, cuts, i + 1);
    }
  }

  lemma LastRun(p: Progress, p': Progress, records: seq<Batch>, full: set<Batch> -> bool, cuts: seq<nat>,
                mem: set<Batch>)
    requires CutSoFar(p, p', records, full, cuts, |records|, Some(mem))
    ensures CutSoFar(p, WithTable(p', mem), records, full, cuts + [|records|], |records|, None)
  {
    var last := cuts[|cuts| - 1];
    assert last < |records|;
    assert records[last..|records|][0] == records[last] && records[last] in Run(records, last, |records|);
    hide Run, CutWhenFull, TablesOf;
    CutAt(records, full, cuts, |records|);
    OneMoreTable(p, p', records, cuts, |records|);
  }

  lemma CutAt(records: seq<Batch>, full: set<Batch> -> bool, cuts: seq<nat>, to: nat)
    requires CutWhenFull(records, full, cuts) && |cuts| > 0 && cuts[|cuts| - 1] < to <= |records|
    requires NotFullBefore(records, full, cuts[|cuts| - 1], to)
    requires to < |records| ==> IsFull(records, full, cuts[|cuts| - 1], to)
    ensures CutWhenFull(records, full, cuts + [to])
  {
    hide Run, IsFull, NotFullBefore;
    forall j | 0 <= j < |cuts| ensures RunOk(records, full, cuts + [to], j) {
      assert j < |cuts| - 1 ==> RunOk(records, full, cuts, j);
    }
  }

  lemma OneMoreTable(p: Progress, p': Progress, records: seq<Batch>, cuts: seq<nat>, to: nat)
    requires TablesOf(p, p', records, cuts) && |cuts| > 0 && cuts[|cuts| - 1] < to <= |records|
    requires Run(records, cuts[|cuts| - 1], to) != {}
    ensures TablesOf(p, WithTable(p', Run(records, cuts[|cuts| - 1], to)), records, cuts + [to])
  {
    hide Run;
    var q := WithTable(p', Run(records, cuts[|cuts| - 1], to));
    forall j | 0 <= j < |cuts| ensures RunWritten(p.next, q, records, cuts + [to], j) {
      assert j < |cuts| - 1 ==> RunWritten(p.next, p', records, cuts, j);
    }
  }

  /** `RecoverLogFile`: every record goes into a memtable, and the memtable into a table, early if it gets full. */
  method RecoverLogFile(ghost d: Disk, p: Progress, log: LogFile, full: set<Batch> -> bool, ghost done: set<Batch>)
      returns (p': Progress, ghost cuts: seq<nat>)
    requires ProgressOk(d, p, done) && forall n :: n in d.manifest.tables ==> n < d.manifest.nextFile
    ensures ProgressOk(d, p', done + Records(log)) && p'.next >= p.next
    ensures CutSoFar(p, p', log.records, full, cuts, |log.records|, None)
  {
    NoCut(p, log.records, full);
    hide ProgressOk, Records, CutSoFar;
    assert done + {} == done;
    p', cuts := p, [0];
    var mem: Option<set<Batch>> := None;
    ghost var flushed := {};
    NoRecords(log);
    for i := 0 to |log.records|
      invariant ProgressOk(d, p', done + flushed) && p'.next >= p.next
      invariant flushed + (if mem.Some? then mem.value else {}) == RecordsUpTo(log, i)
      invariant CutSoFar(p, p', log.records, full, cuts, i, mem)
    {
      OneMoreRecord(log, i);
      OneMoreInRun(p, p', log.records, full, cuts, i, mem);
      mem := Some((if mem.Some? then mem.value else {}) + {log.records[i]});
      if full(mem.value) {
        assert done + flushed + mem.value == done + (flushed + mem.value);
        p' := WriteLevel0Table(d, p', mem.value, done + flushed);
        flushed, mem, cuts := flushed + mem.value, None, cuts + [i + 1];
      }
    }
    if mem.Some? {
      assert done + flushed + mem.value == done + (flushed + mem.value);
      LastRun(p, p', log.records, full, cuts, mem.value);
      p' := WriteLevel0Table(d, p', mem.value, done + flushed);
      cuts := cuts + [|log.records|];
    } else {
      assert flushed == flushed + {};
    }
  }

  ghost function RecordsUpTo(log: LogFile, i: nat): set<Batch>
    requires i <= |log.records|
  {
    Records(LogFile(log.records[..i], 0))
  }

  lemma NoRecords(log: LogFile)
    ensures RecordsUpTo(log, 0) == {} && RecordsUpTo(log, |log.records|) == Records(log)
  {
    assert log.records[..|log.records|] == log.records;
  }

  lemma OneMoreRecord(log: LogFile, i: nat)
    requires i < |log.records|
    ensures RecordsUpTo(log, i + 1) == RecordsUpTo(log, i) + {log.records[i]}
  {
    assert log.records[..i + 1] == log.records[..i] + [log.records[i]];
  }

  ghost function RecordsOf(d: Disk, numbers: seq<nat>): set<Batch> {
    set n, b | n in numbers && n in d.logs && b in d.logs[n].records :: b
  }

  /** The database as `Open` hands it out, with exactly what was on disk; all of that is now in tables. */
  ghost predicate IsReopened(d: Disk, t: State) {
    CanOpen(t.manifest, t.tables, Recovered(d)) && t == Opened(t.manifest, t.tables, Recovered(d))
  }

  lemma RecordsOfMore(d: Disk, numbers: seq<nat>, i: nat)
    requires i < |numbers| && numbers[i] in d.logs
    ensures RecordsOf(d, numbers[..i + 1]) == RecordsOf(d, numbers[..i]) + Records(d.logs[numbers[i]])
  {
    assert numbers[..i + 1] == numbers[..i] + [numbers[i]];
  }

  lemma NextGrows(d: Disk, p: Progress, next: nat, done: set<Batch>)
    requires ProgressOk(d, p, done) && p.next <= next
    ensures ProgressOk(d, p.(next := next), done)
  {
  }

  lemma AllRecovered(d: Disk, p: Progress, numbers: seq<nat>)
    requires ProgressOk(d, p, RecordsOf(d, numbers)) && d.manifest.tables <= d.tables.Keys
    requires forall n :: n in numbers <==> n in d.logs && NeedsLog(d.manifest, n)
    ensures InTables(p.tables, d.manifest.tables + p.added) == Recovered(d)
    ensures d.manifest.tables + p.added <= p.tables.Keys
  {
    TogetherHold(p.tables, d.manifest.tables, p.added);
    assert InTables(p.tables, d.manifest.tables) == InTables(d.tables, d.manifest.tables);
    hide InTables;
    assert RecordsOf(d, numbers) == LoggedBatches(d);
  }

  lemma KeptTables(tables: map<nat, set<Batch>>, live: set<nat>)
    requires live <= tables.Keys
    ensures (map n | n in live :: tables[n]).Keys == live
    ensures InTables(map n | n in live :: tables[n], live) == InTables(tables, live)
  {
  }

  /**
   `DBImpl::Recover` and the rest of `Open`. The descriptor is the old one until the very end, and up to then nothing
   that it needs has changed.
   */
  method Recover(d: Disk, full: set<Batch> -> bool) returns (t: State)
    requires NamesOk(d)
    ensures IsReopened(d, t)
    ensures forall n :: n in d.logs ==> n < t.logfileNumber
  {
    var numbers := LogsToRecover(d);
    var p := Progress(d.tables, {}, d.manifest.nextFile + 1);
    assert InTables(d.tables, {}) == RecordsOf(d, numbers[..0]) == {};
    for i := 0 to |numbers|
      invariant ProgressOk(d, p, RecordsOf(d, numbers[..i]))
      invariant forall n :: n in numbers[..i] ==> n < p.next
    {
      var n := numbers[i];
      assert n in numbers;
      RecordsOfMore(d, numbers, i);
      hide ProgressOk, RecordsOf;
      ghost var cuts;
      p, cuts := RecoverLogFile(d, p, d.logs[n], full, RecordsOf(d, numbers[..i]));
      if p.next <= n {
        NextGrows(d, p, n + 1, RecordsOf(d, numbers[..i + 1]));
        p := p.(next := n + 1);
      }
    }
    assert numbers[..|numbers|] == numbers;
    var live := d.manifest.tables + p.added;
    var manifest := Descriptor(p.next, 0, live, p.next + 1);
    AllRecovered(d, p, numbers);
    KeptTables(p.tables, live);
    hide InTables;
    t := Opened(manifest, map n | n in live :: p.tables[n], InTables(p.tables, live));
  }

  lemma ReopenedIsGood(d: Disk, t: State)
    requires IsReopened(d, t)
    ensures Inv(t) && t.history == t.syncedHistory == Recovered(d)
  {
    OpenedIsGood(t.manifest, t.tables, Recovered(d));
  }

  /** Once the descriptor is written, the files that are not yet removed do no harm. */
  lemma NotYetRemoved(d: Disk, t: State, d': Disk)
    requires IsReopened(d, t) && (forall n :: n in d.logs ==> 0 < n < t.logfileNumber)
    requires forall n :: n in d.logs ==> d.logs[n].synced <= |d.logs[n].records|
    requires d'.manifest == t.manifest && d'.logs == d.logs[t.logfileNumber := LogFile([], 0)]
    requires forall n :: n in t.tables ==> n in d'.tables && d'.tables[n] == t.tables[n]
    ensures SameNeeded(OnDisk(t), d')
  {
  }

  // ---------------------------------------------------------------------------------------------------------------
  // Runs with crashes.

  /**
   What goes on: a step of the open database, or a crash and a recovery, which may itself have been interrupted any
   number of times. The disks are those between the two.
   */
  datatype Event = Do(step: Step) | Reopen(disks: seq<Disk>)

  ghost predicate Leads(disks: seq<Disk>) {
    forall i :: 0 <= i < |disks| - 1 ==> Crashed(disks[i], disks[i + 1]) || SameNeeded(disks[i], disks[i + 1])
  }

  ghost predicate Happens(s: State, e: Event, t: State) {
    match e
    case Do(step) => Enabled(s, step) && t == Next(s, step)
    case Reopen(disks) => disks != [] && disks[0] == OnDisk(s) && Leads(disks) && IsReopened(disks[|disks| - 1], t)
  }

  lemma {:induction false} DisksStayOk(disks: seq<Disk>, must: set<Batch>, may: set<Batch>)
    requires disks != [] && Leads(disks) && DiskOk(disks[0], must, may)
    ensures DiskOk(disks[|disks| - 1], must, may)
    decreases |disks|
  {
    if |disks| > 1 {
      var n := |disks| - 1;
      hide DiskOk;
      DisksStayOk(disks[..n], must, may);
      assert Crashed(disks[n - 1], disks[n]) || SameNeeded(disks[n - 1], disks[n]);
      if Crashed(disks[n - 1], disks[n]) {
        CrashKeepsDisk(disks[n - 1], disks[n], must, may);
      } else {
        SameNeededKeepsDisk(disks[n - 1], disks[n], must, may);
      }
    }
  }

  lemma StepKeepsSynced(s: State, step: Step)
    requires Enabled(s, step)
    ensures s.syncedHistory <= Next(s, step).syncedHistory && s.history <= Next(s, step).history
  {
  }

  lemma EventIsGood(s: State, e: Event, t: State)
    requires Inv(s) && Happens(s, e, t)
    ensures Inv(t) && s.syncedHistory <= t.syncedHistory
    ensures e.Reopen? ==> t.history <= s.history
  {
    match e
    case Do(step) =>
      StepIsGood(s, step);
      StepKeepsSynced(s, step);
    case Reopen(disks) =>
      OpenDiskIsOk(s);
      DisksStayOk(disks, s.syncedHistory, s.history);
      SafeIsRecovered(disks[|disks| - 1], s.syncedHistory, s.history);
      ReopenedIsGood(disks[|disks| - 1], t);
  }

  /** Over any run with any number of crashes the invariant holds, and what was synced once is there ever after. */
  lemma {:induction false} CrashesLoseNothingSynced(states: seq<State>, events: seq<Event>)
    requires |states| == |events| + 1 && Inv(states[0])
    requires forall i :: 0 <= i < |events| ==> Happens(states[i], events[i], states[i + 1])
    ensures Inv(states[|events|])
    ensures forall i :: 0 <= i <= |events| ==>
              states[i].syncedHistory <= states[|events|].syncedHistory <= states[|events|].history
    decreases |events|
  {
    var n := |events|;
    hide Inv, Happens;
    if n > 0 {
      var front := states[..n];
      assert forall i :: 0 <= i < n - 1 ==> Happens(front[i], events[..n - 1][i], front[i + 1]);
      CrashesLoseNothingSynced(front, events[..n - 1]);
      EventIsGood(states[n - 1], events[n - 1], states[n]);
      forall i | 0 <= i <= n ensures states[i].syncedHistory <= states[n].syncedHistory {
        assert i < n ==> front[i] == states[i];
      }
    }
    SyncedWasLogged(states[n]);
  }

  lemma SyncedWasLogged(s: State)
    requires Inv(s)
    ensures s.syncedHistory <= s.history
  {
  }
}
