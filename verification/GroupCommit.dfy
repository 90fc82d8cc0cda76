/**
 Group commit. Writers queue up; the one at the front takes a run of those behind it along, logs all their batches as
 one record, and lets go of the mutex while it does. The steps below are what happens under the mutex, in any
 interleaving of arriving writers with the one at the front.
 */
module GroupCommit {
  import opened Basics

  /** A write batch: its puts and deletes as they are encoded, after a header of twelve bytes. */
  datatype Batch = Batch(records: seq<Slice>) {
    function Count(): nat { |records| }

    function ByteSize(): nat { 12 + Total(records) }
  }

  function Total(records: seq<Slice>): nat {
    if records == [] then 0 else Total(records[..|records| - 1]) + |records[|records| - 1]|
  }

  /** What a caller asks for; no batch at all just waits for earlier writes. */
  datatype Request = Request(batch: Option<Batch>, sync: bool)

  datatype LogRecord = LogRecord(sequence: nat, records: seq<Slice>, synced: bool)

  const LARGE: nat := 0x10_0000
  const SMALL: nat := 0x2_0000

  function MaxSize(first: nat): nat {
    if first <= SMALL then first + SMALL else LARGE
  }

  /** The bytes of all batches among `q`. */
  function Size(q: seq<Request>): nat {
    if q == [] then 0
    else Size(q[..|q| - 1]) + match q[|q| - 1].batch { case Some(b) => b.ByteSize() case None => 0 }
  }

  /** The entries of all batches among `q`, in order. */
  function Records(q: seq<Request>): seq<Slice> {
    if q == [] then []
    else Records(q[..|q| - 1]) + match q[|q| - 1].batch { case Some(b) => b.records case None => [] }
  }

  lemma OneMore(q: seq<Request>, n: nat)
    requires n < |q|
    ensures q[n].batch.Some? ==> Size(q[..n + 1]) == Size(q[..n]) + q[n].batch.value.ByteSize()
    ensures q[n].batch.Some? ==> Records(q[..n + 1]) == Records(q[..n]) + q[n].batch.value.records
    ensures q[n].batch.None? ==> Size(q[..n + 1]) == Size(q[..n]) && Records(q[..n + 1]) == Records(q[..n])
  {
    assert q[..n + 1][..n] == q[..n];
  }

  lemma {:induction false} RecordsConcat(p: seq<Request>, q: seq<Request>)
    ensures Records(p + q) == Records(p) + Records(q)
    decreases |q|
  {
    if q == [] {
      assert p + q == p;
    } else {
      var n := |q| - 1;
      RecordsConcat(p, q[..n]);
      assert (p + q)[..|p + q| - 1] == p + q[..n] && (p + q)[|p + q| - 1] == q[n];
      var last := match q[n].batch { case Some(b) => b.records case None => [] };
      assert Records(p + q) == Records(p + q[..n]) + last;
      assert Records(p) + Records(q[..n]) + last == Records(p) + (Records(q[..n]) + last);
    }
  }

  // ---------------------------------------------------------------------------------------------------------------
  // Which writers make a group.

  /** Whether the writer at `j` may be taken along by the one at the front, if all between them are. */
  predicate MayFollow(q: seq<Request>, j: nat)
    requires j < |q|
  {
    && (q[j].sync ==> q[0].sync)
    && (q[j].batch.Some? ==> Size(q[..j + 1]) <= MaxSize(Size(q[..1])))
  }

  /** The longest run from the front in which every writer may follow. */
  predicate IsGroup(q: seq<Request>, n: nat) {
    && 0 < n <= |q| && q[0].batch.Some?
    && AllFollow(q, n)
    && (n < |q| ==> !MayFollow(q, n))
  }

  predicate AllFollow(q: seq<Request>, n: nat)
    requires n <= |q|
  {
    forall j :: 0 < j < n ==> MayFollow(q, j)
  }

  /** The test as the loop makes it, with `size` the bytes so far. */
  lemma FollowsIf(q: seq<Request>, n: nat, size: nat)
    requires 0 < n < |q| && size == Size(q[..n])
    ensures MayFollow(q, n) <==>
      (q[n].sync ==> q[0].sync) && (q[n].batch.Some? ==> size + q[n].batch.value.ByteSize() <= MaxSize(Size(q[..1])))
  {
    OneMore(q, n);
  }

  /** What the loop has made of the first `n` writers. */
  predicate Taken(q: seq<Request>, n: nat, size: nat, records: seq<Slice>) {
    0 < n <= |q| && AllFollow(q, n) && size == Size(q[..n]) && records == Records(q[..n])
  }

  lemma TakeFirst(q: seq<Request>)
    requires q != [] && q[0].batch.Some?
    ensures Taken(q, 1, q[0].batch.value.ByteSize(), q[0].batch.value.records)
    ensures Size(q[..1]) == q[0].batch.value.ByteSize()
  {
    OneMore(q, 0);
    assert q[..0] == [];
  }

  lemma TakeNext(q: seq<Request>, n: nat, size: nat, records: seq<Slice>)
    requires Taken(q, n, size, records) && n < |q| && (q[n].sync ==> q[0].sync)
    ensures q[n].batch.None? ==> Taken(q, n + 1, size, records)
    ensures q[n].batch.Some? && size + q[n].batch.value.ByteSize() <= MaxSize(Size(q[..1])) ==>
      Taken(q, n + 1, size + q[n].batch.value.ByteSize(), records + q[n].batch.value.records)
  {
    OneMore(q, n);
    FollowsIf(q, n, size);
  }

  /** The loop stops where the longest run ends. */
  lemma TakenIsGroup(q: seq<Request>, n: nat, size: nat, records: seq<Slice>)
    requires Taken(q, n, size, records) && q[0].batch.Some?
    requires n < |q| ==> (q[n].sync && !q[0].sync) ||
                         (q[n].batch.Some? && size + q[n].batch.value.ByteSize() > MaxSize(Size(q[..1])))
    ensures IsGroup(q, n) && records == Records(q[..n])
  {
    if n < |q| { FollowsIf(q, n, size); }
  }

  /**
   The limits in bytes: behind a first batch of up to 128 KB a group takes 128 KB more at most; behind a larger one no
   batch is taken along that would bring the group above 1 MB.
   */
  ghost predicate WithinLimits(q: seq<Request>, n: nat)
    requires 0 < n <= |q|
  {
    if Size(q[..1]) <= 0x2_0000 then Size(q[..n]) - Size(q[..1]) <= 0x2_0000
    else forall j :: 0 < j < n && q[j].batch.Some? ==> Size(q[..j + 1]) <= 0x10_0000
  }

  /** The next writer wants a sync that the first one does not, or its batch would break these limits. */
  ghost predicate StopsAt(q: seq<Request>, n: nat)
    requires 0 < n < |q|
  {
    || (q[n].sync && !q[0].sync)
    || (q[n].batch.Some? &&
        if Size(q[..1]) <= 0x2_0000 then Size(q[..n + 1]) - Size(q[..1]) > 0x2_0000
        else Size(q[..n + 1]) > 0x10_0000)
  }

  lemma {:induction false} SmallGroupGrows(q: seq<Request>, n: nat)
    requires 0 < n <= |q| && AllFollow(q, n) && Size(q[..1]) <= 0x2_0000
    ensures Size(q[..n]) - Size(q[..1]) <= 0x2_0000
  {
    if n > 1 {
      SmallGroupGrows(q, n - 1);
      assert MayFollow(q, n - 1);
      OneMore(q, n - 1);
    }
  }

  /** A group keeps the limits, and no longer one would. */
  lemma GroupLimits(q: seq<Request>, n: nat)
    requires IsGroup(q, n)
    ensures WithinLimits(q, n) && (n < |q| ==> StopsAt(q, n))
  {
    if Size(q[..1]) <= 0x2_0000 { SmallGroupGrows(q, n); }
    forall j | 0 < j < n && q[j].batch.Some? ensures Size(q[..j + 1]) <= MaxSize(Size(q[..1])) {
      assert MayFollow(q, j);
    }
  }

  lemma OneGroup(q: seq<Request>, m: nat, n: nat)
    requires IsGroup(q, m) && IsGroup(q, n)
    ensures m == n
  {
  }

  // ---------------------------------------------------------------------------------------------------------------
  // The queue as a state machine.

  /**
   Writers that left the queue together: taken into the log under one record, or one that was turned away or had no
   batch.
   */
  datatype Group =
    | Committed(members: seq<Request>, sequence: nat, ok: bool)
    | Single(members: seq<Request>)

  datatype State = State(
    arrived: seq<Request>,
    groups: seq<Group>,
    queue: seq<Request>,
    leading: Option<nat>,
    lastSequence: nat,
    log: seq<LogRecord>)

  datatype Step = ArriveStep(request: Request) | LeadStep(n: nat) | FinishStep(logged: bool, ok: bool) | LeaveStep

  predicate Enabled(s: State, step: Step) {
    match step
    case ArriveStep(r) => true
    case LeadStep(n) => s.leading.None? && IsGroup(s.queue, n)
    case FinishStep(logged, ok) => s.leading.Some? && s.leading.value <= |s.queue| && s.leading.value > 0 &&
        (ok ==> logged)
    case LeaveStep => s.leading.None? && s.queue != []
  }

  /** The record for the first `n` writers; the log is synced behind it if the front writer asks for that. */
  function RecordFor(s: State, n: nat): LogRecord
    requires 0 < n <= |s.queue|
  {
    LogRecord(s.lastSequence + 1, Records(s.queue[..n]), s.queue[0].sync)
  }

  function Next(s: State, step: Step): State
    requires Enabled(s, step)
  {
    match step
    case ArriveStep(r) => s.(arrived := s.arrived + [r], queue := s.queue + [r])
    case LeadStep(n) => s.(leading := Some(n))
    case FinishStep(logged, ok) =>
      var n := s.leading.value;
      s.(queue := s.queue[n..], leading := None, groups := s.groups + [Committed(s.queue[..n], s.lastSequence + 1, ok)],
         lastSequence := s.lastSequence + |Records(s.queue[..n])|,
         log := if logged then s.log + [RecordFor(s, n)] else s.log)
    case LeaveStep => s.(queue := s.queue[1..], groups := s.groups + [Single(s.queue[..1])])
  }

  function Members(groups: seq<Group>): seq<Request> {
    if groups == [] then [] else Members(groups[..|groups| - 1]) + groups[|groups| - 1].members
  }

  /** How many sequence numbers the groups took up. */
  function Used(groups: seq<Group>): nat {
    if groups == [] then 0
    else Used(groups[..|groups| - 1]) + match groups[|groups| - 1] {
      case Committed(members, sequence, ok) => |Records(members)|
      case Single(members) => 0
    }
  }

  /** Group `i` starts at the number after all that the groups before it took up. */
  predicate Numbered(groups: seq<Group>, base: nat) {
    forall i :: 0 <= i < |groups| && groups[i].Committed? ==> groups[i].sequence == base + 1 + Used(groups[..i])
  }

  predicate WellFormed(g: Group) {
    match g
    case Committed(members, sequence, ok) =>
      && members != [] && members[0].batch.Some?
      && (forall j :: 0 < j < |members| ==> MayFollow(members, j))
    case Single(members) => |members| == 1
  }

  /** A group that succeeded is in the log, synced if any member wanted that. */
  predicate InLog(log: seq<LogRecord>, g: Group) {
    g.Committed? && g.ok ==> exists i :: 0 <= i < |log| && IsRecordOf(log[i], g)
  }

  predicate IsRecordOf(r: LogRecord, g: Group)
    requires g.Committed?
  {
    && r.sequence == g.sequence && r.records == Records(g.members)
    && forall j :: 0 <= j < |g.members| && g.members[j].sync ==> r.synced
  }

  /** Later records have higher numbers throughout. */
  predicate LogOk(log: seq<LogRecord>, lastSequence: nat) {
    && (forall i :: 0 <= i < |log| ==> log[i].sequence + |log[i].records| <= lastSequence + 1)
    && (forall i, j :: 0 <= i < j < |log| ==> log[i].sequence + |log[i].records| <= log[j].sequence)
  }

  predicate Inv(s: State, base: nat) {
    && s.arrived == Members(s.groups) + s.queue
    && (s.leading.Some? ==> 0 < s.leading.value <= |s.queue| && s.queue[0].batch.Some? &&
                            forall j :: 0 < j < s.leading.value ==> MayFollow(s.queue, j))
    && s.lastSequence == base + Used(s.groups)
    && Numbered(s.groups, base)
    && (forall i :: 0 <= i < |s.groups| ==> WellFormed(s.groups[i]) && InLog(s.log, s.groups[i]))
    && LogOk(s.log, s.lastSequence)
  }

  lemma {:induction false} UsedMonotone(groups: seq<Group>, i: nat)
    requires i <= |groups|
    ensures Used(groups[..i]) <= Used(groups)
    decreases |groups|
  {
    if i < |groups| {
      var n := |groups| - 1;
      UsedMonotone(groups[..n], i);
      assert groups[..n][..i] == groups[..i];
    } else {
      assert groups[..i] == groups;
    }
  }

  /** Groups take up consecutive ranges of sequence numbers, no number twice. */
  lemma ConsecutiveRanges(s: State, base: nat, i: nat, j: nat)
    requires Inv(s, base) && i < j < |s.groups| && s.groups[i].Committed? && s.groups[j].Committed?
    ensures s.groups[i].sequence + |Records(s.groups[i].members)| <= s.groups[j].sequence
    ensures s.groups[j].sequence + |Records(s.groups[j].members)| <= s.lastSequence + 1
    ensures (forall k :: i < k < j ==> s.groups[k].Single?)
      ==> s.groups[i].sequence + |Records(s.groups[i].members)| == s.groups[j].sequence
  {
    RangeEnds(s.groups, base, i, j);
    RangeEnds(s.groups, base, j, |s.groups|);
    assert s.groups[..|s.groups|] == s.groups;
    hide WellFormed, InLog, LogOk, Members, Used;
    if forall k :: i < k < j ==> s.groups[k].Single? { SinglesUseNothing(s.groups, i + 1, j); }
  }

  lemma RangeEnds(groups: seq<Group>, base: nat, i: nat, j: nat)
    requires Numbered(groups, base) && i < j <= |groups| && groups[i].Committed?
    ensures groups[i].sequence + |Records(groups[i].members)| == base + 1 + Used(groups[..i + 1]) <=
              base + 1 + Used(groups[..j])
  {
    UsedBy(groups, i);
    assert groups[..j][..i + 1] == groups[..i + 1];
    UsedMonotone(groups[..j], i + 1);
  }

  lemma UsedBy(groups: seq<Group>, i: nat)
    requires i < |groups| && groups[i].Committed?
    ensures Used(groups[..i + 1]) == Used(groups[..i]) + |Records(groups[i].members)|
  {
    assert groups[..i + 1][..i] == groups[..i];
  }

  lemma {:induction false} SinglesUseNothing(groups: seq<Group>, i: nat, j: nat)
    requires i <= j <= |groups| && forall k :: i <= k < j ==> groups[k].Single?
    ensures Used(groups[..i]) == Used(groups[..j])
    decreases j
  {
    if i < j {
      assert groups[..j][..j - 1] == groups[..j - 1];
      SinglesUseNothing(groups, i, j - 1);
    }
  }

  /** Writers leave in the order in which they came, each in exactly one group: the one that holds its place. */
  lemma {:induction false} LeavesOnce(groups: seq<Group>, k: nat)
    requires k < |Members(groups)|
    ensures exists i, j :: HoldsPlace(groups, k, i, j)
    ensures forall i, j, i', j' :: HoldsPlace(groups, k, i, j) && HoldsPlace(groups, k, i', j') ==> i == i' && j == j'
    decreases |groups|
  {
    var n := |groups| - 1;
    var before := Members(groups[..n]);
    if k < |before| {
      LeavesOnce(groups[..n], k);
      var i, j :| HoldsPlace(groups[..n], k, i, j);
      assert groups[..n][..i] == groups[..i];
      assert HoldsPlace(groups, k, i, j);
    } else {
      assert HoldsPlace(groups, k, n, k - |before|);
    }
    forall i, j, i', j' | HoldsPlace(groups, k, i, j) && HoldsPlace(groups, k, i', j') ensures i == i' && j == j' {
      if i < i' { MembersGrow(groups, i, i'); }
      if i' < i { MembersGrow(groups, i', i); }
    }
  }

  predicate HoldsPlace(groups: seq<Group>, k: nat, i: int, j: int) {
    && 0 <= i < |groups| && 0 <= j < |groups[i].members|
    && k == |Members(groups[..i])| + j && k < |Members(groups)| && groups[i].members[j] == Members(groups)[k]
  }

  lemma {:induction false} MembersGrow(groups: seq<Group>, i: nat, j: nat)
    requires i < j <= |groups|
    ensures |Members(groups[..i])| + |groups[i].members| <= |Members(groups[..j])|
    decreases j
  {
    assert groups[..j][..j - 1] == groups[..j - 1];
    if i < j - 1 { MembersGrow(groups, i, j - 1); }
  }

  // ---------------------------------------------------------------------------------------------------------------
  // Runs.

  predicate IsRun(s: State, steps: seq<Step>)
    decreases |steps|
  {
    steps == [] || (Enabled(s, steps[0]) && IsRun(Next(s, steps[0]), steps[1..]))
  }

  function After(s: State, steps: seq<Step>): State
    requires IsRun(s, steps)
    decreases |steps|
  {
    if steps == [] then s else After(Next(s, steps[0]), steps[1..])
  }

  function Idle(base: nat): State {
    State([], [], [], None, base, [])
  }

  /** In every interleaving of arriving and leading writers, the invariant holds. */
  lemma {:induction false} RunsAreGood(s: State, base: nat, steps: seq<Step>)
    requires Inv(s, base) && IsRun(s, steps)
    ensures Inv(After(s, steps), base)
    decreases |steps|
  {
    if steps != [] {
      StepIsGood(s, base, steps[0]);
      RunsAreGood(Next(s, steps[0]), base, steps[1..]);
    }
  }

  lemma IdleIsGood(base: nat)
    ensures Inv(Idle(base), base)
  {
  }

  lemma StepIsGood(s: State, base: nat, step: Step)
    requires Inv(s, base) && Enabled(s, step)
    ensures Inv(Next(s, step), base)
  {
    match step
    case ArriveStep(r) => ArriveIsGood(s, base, r);
    case LeadStep(n) => LeadIsGood(s, base, n);
    case FinishStep(logged, ok) => FinishIsGood(s, base, logged, ok);
    case LeaveStep => LeaveAloneIsGood(s, base);
  }

  lemma ArriveIsGood(s: State, base: nat, r: Request)
    requires Inv(s, base)
    ensures Inv(Next(s, ArriveStep(r)), base)
  {
    var t := Next(s, ArriveStep(r));
    if s.leading.Some? {
      forall j | 0 < j < s.leading.value ensures MayFollow(t.queue, j) { FollowsStill(s.queue, t.queue, j); }
    }
  }

  /** Whether a writer may follow depends on nothing behind it. */
  lemma FollowsStill(q: seq<Request>, p: seq<Request>, j: nat)
    requires j < |q| && j < |p| && q[..j + 1] == p[..j + 1]
    ensures MayFollow(q, j) == MayFollow(p, j)
  {
    assert q[..1] == q[..j + 1][..1] && p[..1] == p[..j + 1][..1];
    assert q[j] == q[..j + 1][j] && p[j] == p[..j + 1][j] && q[0] == q[..j + 1][0] && p[0] == p[..j + 1][0];
  }

  lemma LeadIsGood(s: State, base: nat, n: nat)
    requires Inv(s, base) && Enabled(s, LeadStep(n))
    ensures Inv(Next(s, LeadStep(n)), base)
  {
  }

  lemma LeaveAloneIsGood(s: State, base: nat)
    requires Inv(s, base) && Enabled(s, LeaveStep)
    ensures Inv(Next(s, LeaveStep), base)
  {
    var t := Next(s, LeaveStep);
    assert t.groups[..|s.groups|] == s.groups;
    GroupsGrow(s, t, base);
    assert s.queue == s.queue[..1] + t.queue;
    assert WellFormed(t.groups[|s.groups|]) && InLog(t.log, t.groups[|s.groups|]);
    hide WellFormed, InLog, LogOk, Records;
    assert Numbered(t.groups, base);
  }

  /** One more group at the end leaves the earlier ones as they are. */
  lemma GroupsGrow(s: State, t: State, base: nat)
    requires Inv(s, base) && |t.groups| == |s.groups| + 1 && t.groups[..|s.groups|] == s.groups && s.log <= t.log
    ensures forall i :: 0 <= i < |s.groups| ==> t.groups[i] == s.groups[i] && t.groups[..i] == s.groups[..i]
    ensures forall i :: 0 <= i < |s.groups| ==> InLog(t.log, t.groups[i])
  {
    forall i | 0 <= i < |s.groups| ensures t.groups[i] == s.groups[i] && t.groups[..i] == s.groups[..i] {
      assert t.groups[..|s.groups|][..i] == t.groups[..i];
    }
    forall i | 0 <= i < |s.groups| ensures InLog(t.log, t.groups[i]) {
      var g := s.groups[i];
      if g.Committed? && g.ok {
        var k :| 0 <= k < |s.log| && IsRecordOf(s.log[k], g);
        assert t.log[k] == s.log[k];
      }
    }
  }

  lemma FinishIsGood(s: State, base: nat, logged: bool, ok: bool)
    requires Inv(s, base) && Enabled(s, FinishStep(logged, ok))
    ensures Inv(Next(s, FinishStep(logged, ok)), base)
  {
    var t := Next(s, FinishStep(logged, ok));
    var n, g := s.leading.value, t.groups[|s.groups|];
    GroupsGrow(s, t, base);
    assert t.groups[..|s.groups|] == s.groups;
    assert s.queue == s.queue[..n] + t.queue;
    assert WellFormed(g) by { GroupIsWellFormed(s.queue, n, g); }
    if ok { RecordOfGroup(s, n, g); assert t.log[|s.log|] == RecordFor(s, n); }
    hide WellFormed, InLog, IsRecordOf;
  }

  lemma GroupIsWellFormed(q: seq<Request>, n: nat, g: Group)
    requires 0 < n <= |q| && q[0].batch.Some? && forall j :: 0 < j < n ==> MayFollow(q, j)
    requires g.Committed? && g.members == q[..n]
    ensures WellFormed(g)
  {
    forall j | 0 < j < n ensures MayFollow(g.members, j) {
      assert g.members[..j + 1] == q[..j + 1];
      FollowsStill(q, g.members, j);
    }
  }

  lemma RecordOfGroup(s: State, n: nat, g: Group)
    requires 0 < n <= |s.queue| && forall j :: 0 < j < n ==> MayFollow(s.queue, j)
    requires g == Committed(s.queue[..n], s.lastSequence + 1, true)
    ensures IsRecordOf(RecordFor(s, n), g)
  {
    forall j | 0 <= j < n && g.members[j].sync ensures s.queue[0].sync {
      if j > 0 { assert MayFollow(s.queue, j); }
    }
  }

  // ---------------------------------------------------------------------------------------------------------------
  // The queue as the program keeps it.

  class Writer {
    const request: Request
    var done: bool
    var ok: bool

    constructor (request: Request)
      ensures this.request == request && !done
    {
      this.request := request;
      done, ok := false, false;
    }
  }

  function Requests(writers: seq<Writer>): seq<Request> {
    seq(|writers|, i requires 0 <= i < |writers| => writers[i].request)
  }

  /** Different writers, none told yet that its write is done. */
  ghost predicate Waiting(writers: seq<Writer>)
    reads writers
  {
    && (forall i, j :: 0 <= i < j < |writers| ==> writers[i] != writers[j])
    && (forall i :: 0 <= i < |writers| ==> !writers[i].done)
  }

  class DBImpl {
    var writers: seq<Writer>
    var tmpBatch: Batch
    var lastSequence: nat
    var log: seq<LogRecord>
    ghost var leading: Option<nat>
    ghost var arrived: seq<Request>
    ghost var groups: seq<Group>

    ghost predicate Valid()
      reads this, writers
    {
      && Waiting(writers)
      && (leading.Some? ==> 0 < leading.value <= |writers|)
      && (leading.None? ==> tmpBatch.records == [])
    }

    ghost function View(): State
      reads this
    {
      State(arrived, groups, Requests(writers), leading, lastSequence, log)
    }

    constructor (lastSequence: nat)
      ensures Valid() && View() == Idle(lastSequence)
    {
      writers, tmpBatch, log, leading, arrived, groups := [], Batch([]), [], None, [], [];
      this.lastSequence := lastSequence;
    }

    /** The start of `Write`. */
    method Enter(w: Writer) returns (front: bool)
      requires Valid() && w !in writers && !w.done
      modifies this`writers, this`arrived
      ensures Valid() && writers == old(writers) + [w]
      ensures View() == Next(old(View()), ArriveStep(w.request))
      ensures front == (writers[0] == w)
    {
      arrived := arrived + [w.request];
      writers := writers + [w];
      front := writers[0] == w;
      assert Requests(writers) == Requests(old(writers)) + [w.request];
    }

    /** Another batch for the group, whose batch becomes the temporary one with the first that is added. */
    method Append(result: Batch, switched: bool, batch: Batch) returns (r: Batch)
      requires if switched then tmpBatch == result else tmpBatch.records == []
      modifies this`tmpBatch
      ensures r == tmpBatch && r.records == result.records + batch.records
    {
      if !switched {
        tmpBatch := Batch(tmpBatch.records + result.records);
      }
      tmpBatch := Batch(tmpBatch.records + batch.records);
      r := tmpBatch;
    }

    /** `BuildBatchGroup`: the batch to log, and how many writers it speaks for. */
    method BuildBatchGroup() returns (result: Batch, n: nat)
      requires writers != [] && writers[0].request.batch.Some? && tmpBatch.records == []
      modifies this`tmpBatch
      ensures IsGroup(Requests(writers), n)
      ensures WithinLimits(Requests(writers), n) && (n < |writers| ==> StopsAt(Requests(writers), n))
      ensures result.records == Records(Requests(writers)[..n])
      ensures tmpBatch == result || tmpBatch == old(tmpBatch)
    {
      ghost var q := Requests(writers);
      var first := writers[0];
      result := first.request.batch.value;
      var size: nat := result.ByteSize();
      var maxSize := MaxSize(size);
      TakeFirst(q);
      hide Taken, Size, Records, Total, MaxSize, IsGroup, WithinLimits, StopsAt;
      var switched := false;
      n := 1;
      while n < |writers|
        invariant 0 < n <= |writers| && Taken(q, n, size, result.records)
        invariant if switched then tmpBatch == result else tmpBatch == old(tmpBatch)
      {
        var w := writers[n];
        assert q[n] == w.request;
        if w.request.sync && !first.request.sync {
          TakenIsGroup(q, n, size, result.records);
          GroupLimits(q, n);
          return;
        }
        TakeNext(q, n, size, result.records);
        if w.request.batch.Some? {
          if size + w.request.batch.value.ByteSize() > maxSize {
            TakenIsGroup(q, n, size, result.records);
            GroupLimits(q, n);
            return;
          }
          size := size + w.request.batch.value.ByteSize();
          result := Append(result, switched, w.request.batch.value);
          switched := true;
        }
        n := n + 1;
      }
      TakenIsGroup(q, n, size, result.records);
      GroupLimits(q, n);
    }

    /** The front writer with a batch, once there is room: what it is to log, and under which number. */
    method Lead() returns (record: LogRecord, n: nat)
      requires Valid() && leading.None? && writers != [] && writers[0].request.batch.Some?
      modifies this`tmpBatch, this`leading
      ensures Valid() && Enabled(old(View()), LeadStep(n)) && View() == Next(old(View()), LeadStep(n))
      ensures record == RecordFor(View(), n)
    {
      var batch, m := BuildBatchGroup();
      n := m;
      record := LogRecord(lastSequence + 1, batch.records, writers[0].request.sync);
      leading := Some(n);
    }

    /** The end of `Write`: takes the group off the queue and tells all but the front writer how it went. */
    method Finish(record: LogRecord, n: nat, logged: bool, ok: bool) returns (next: Option<Writer>)
      requires Valid() && leading == Some(n) && record == RecordFor(View(), n) && (ok ==> logged)
      modifies this, writers[1..n]
      ensures Valid() && View() == Next(old(View()), FinishStep(logged, ok))
      ensures writers == old(writers)[n..]
      ensures forall i :: 0 < i < n ==> old(writers)[i].done && old(writers)[i].ok == ok
      ensures !old(writers)[0].done
      ensures next == if writers == [] then None else Some(writers[0])
    {
      tmpBatch := Batch([]);
      if logged { log := log + [record]; }
      lastSequence := lastSequence + |record.records|;
      ghost var was := Requests(writers);
      groups := groups + [Committed(was[..n], record.sequence, ok)];
      hide Records, Waiting;
      leading := None;
      Dequeue(n, ok);
      assert Requests(writers) == was[n..];
      next := if writers == [] then None else Some(writers[0]);
    }

    /** The front writer whose batch is refused, or who has none. */
    method LeaveAlone() returns (next: Option<Writer>)
      requires Valid() && leading.None? && writers != []
      modifies this`writers, this`groups
      ensures Valid() && View() == Next(old(View()), LeaveStep)
      ensures next == if writers == [] then None else Some(writers[0])
    {
      groups := groups + [Single(Requests(writers)[..1])];
      ghost var was := Requests(writers);
      Dequeue(1, false);
      assert Requests(writers) == was[1..];
      next := if writers == [] then None else Some(writers[0]);
    }

    method Dequeue(n: nat, ok: bool)
      requires 0 < n <= |writers| && Waiting(writers)
      modifies this`writers, writers[1..n]
      ensures writers == old(writers)[n..] && Waiting(writers) && !old(writers)[0].done
      ensures unchanged(`tmpBatch, `lastSequence, `log, `leading, `arrived, `groups)
      ensures forall i :: 0 < i < n ==> old(writers)[i].done && old(writers)[i].ok == ok
    {
      ghost var all := writers;
      var self, lastWriter := writers[0], writers[n - 1];
      ghost var k := 0;
      while true
        invariant 0 <= k < n && writers == all[k..]
        invariant forall i :: 0 < i < k ==> all[i].done && all[i].ok == ok
        invariant forall i :: (i == 0 || k <= i) && i < |all| ==> all[i].done == old(all[i].done)
        decreases n - k
      {
        var ready := writers[0];
        assert ready == all[k];
        writers := writers[1..];
        if ready != self {
          assert ready == all[1..n][k - 1];
          ready.ok := ok;
          ready.done := true;
        }
        k := k + 1;
        if ready == lastWriter {
          break;
        }
      }
    }
  }
}
