/** What transactions are recorded with. */
module TransactionDetails {
  // Whatever the interleaving, each committed transaction is recorded with what it was called with: target count,
  // metadata and schema version, and as an eager commit of its whole root.

  import opened EncodedGraph
  import opened StorageDisk
  import opened CommitPlan
  import opened CrashInvariant
  import opened CrashRuns
  import opened CommitContents
  import opened ConcurrentTransactions

  ghost predicate PreparedWith(p: WalPrepare, x: Details) {
    p.mode == Eager && p.targetCount == x.targetCount && p.schemaVersion == x.schemaVersion
  }

  ghost predicate TaskWith(t: Task, x: Details) {
    && PreparedWith(RecordOfTask(t), x)
    && LogsOnly(t.plan, |t.before| + 1, x.metadata)
  }

  ghost predicate HistoryWith(h: History, asked: seq<Details>) {
    |h| <= |asked| && forall i | 0 <= i < |h| :: PreparedWith(h[i], asked[i])
  }

  ghost predicate LogWith(log: Log, asked: seq<Details>) {
    forall n | n in log && 1 <= n <= |asked| :: log[n].payload.metadata == asked[n - 1].metadata
  }

  ghost predicate TasksWith(phases: map<ManagerId, Phase>, asked: seq<Details>) {
    forall m | m in phases && phases[m].Writing? && |phases[m].task.before| < |asked| ::
      TaskWith(phases[m].task, asked[|phases[m].task.before|])
  }

  ghost predicate DetailsInv(sys: System) {
    && |sys.asked| == |sys.works| && HistoryWith(sys.history, sys.asked)
    && LogWith(sys.disk.transactions, sys.asked) && TasksWith(sys.phases, sys.asked)
  }

  lemma NewTaskWith(sys: System, st: Store, e: Envelope, x: Details, order: WorkerOrder)
    requires Interleaves(order)
    ensures TaskWith(TaskOf(sys, st, EagerRequest(e, x), order), x)
  {
    var req := EagerRequest(e, x);
    CommitLogs(sys.disk, st.options, Session(|sys.history|, map[], req.schemaVersion), req, order);
  }

  lemma BeginKeepsDetails(sys: System, st: Store, m: ManagerId, e: Envelope, work: Work, x: Details, order: WorkerOrder)
    requires SystemInv(sys, st) && DetailsInv(sys) && sys.holder.None? && Interleaves(order)
    ensures DetailsInv(BeginWriting(sys, st, m, e, work, x, order))
  {
    NewTaskWith(sys, st, e, x, order);
    InvParts(sys.disk, sys.history, st.options);
  }

  lemma LogWritten(d: Disk, w: Write, n: nat, x: Details, asked: seq<Details>)
    requires LogWith(d.transactions, asked) && 1 <= n <= |asked| && asked[n - 1] == x
    requires w.PutTransaction? ==>
               w.transaction.payload.transactionId == n && w.transaction.payload.metadata == x.metadata
    ensures LogWith(Apply(d, w).transactions, asked)
  {
  }

  lemma WriteMovesDetails(sys: System, st: Store, m: ManagerId, t: Task, done: nat)
    requires DetailsInv(sys) && Enabled(sys, st, WriteNext(m)) && PhaseOf(sys, m) == Writing(t, done)
    requires |sys.works| == |t.before| + 1 && sys.history == HistoryAfter(t, done)
    ensures DetailsInv(Next(sys, st, WriteNext(m)))
  {
    var x := sys.asked[|t.before|];
    assert TaskWith(t, x);
    assert t.plan[done] in t.plan;
    LogWritten(sys.disk, t.plan[done], |t.before| + 1, x, sys.asked);
    TasksMove(sys, m);
  }

  lemma WriteKeepsDetails(sys: System, st: Store, m: ManagerId)
    requires SystemInv(sys, st) && DetailsInv(sys) && Enabled(sys, st, WriteNext(m))
    ensures DetailsInv(Next(sys, st, WriteNext(m)))
  {
    var t, done := sys.phases[m].task, sys.phases[m].done;
    assert WritingInv(sys, st, t, done);
    WriteMovesDetails(sys, st, m, t, done);
  }

  lemma TasksMove(sys: System, m: ManagerId)
    requires TasksWith(sys.phases, sys.asked) && m in sys.phases && sys.phases[m].Writing?
    ensures TasksWith(sys.phases[m := sys.phases[m].(done := sys.phases[m].done + 1)], sys.asked)
  {
  }

  lemma NextKeepsDetails(sys: System, st: Store, ev: Event)
    requires SystemInv(sys, st) && DetailsInv(sys) && Enabled(sys, st, ev)
    ensures DetailsInv(Next(sys, st, ev))
  {
    match ev
    case LockAndCheck(m, order) =>
      var p := sys.phases[m];
      BeginKeepsDetails(sys, st, m, p.next, p.work, p.details, order);
    case LockReadAndWork(m, work, x, order) =>
      var result := work(Reloaded(sys).1);
      if result.Some? {
        BeginKeepsDetails(sys, st, m, result.value, work, x, order);
      }
    case WriteNext(m) => WriteKeepsDetails(sys, st, m);
    case _ =>
  }

  lemma {:induction false} InterleavingKeepsDetails(sys: System, st: Store, events: seq<Event>)
    requires SystemInv(sys, st) && DetailsInv(sys) && Interleaving(sys, st, events)
    ensures SystemInv(Outcome(sys, st, events), st) && DetailsInv(Outcome(sys, st, events))
    decreases |events|
  {
    if events != [] {
      NextKeepsInv(sys, st, events[0]);
      NextKeepsDetails(sys, st, events[0]);
      InterleavingKeepsDetails(Next(sys, st, events[0]), st, events[1..]);
    }
  }

  /** The log record of a committed transaction, once published. */
  ghost predicate LoggedWith(t: TransactionRecord, n: nat, x: Details) {
    && t.payload.transactionId == n && t.payload.mode == Eager
    && t.payload.targetCount == x.targetCount && t.payload.schemaVersion == x.schemaVersion
    && t.payload.metadata == x.metadata
  }

  /** In every reachable state WAL and log hold for each transaction what it was called with. */
  lemma RecordedAsCalled(initial: Envelope, st: Store, events: seq<Event>, n: nat)
    requires Interleaving(System(EMPTY_DISK, [], [], [], initial, None, map[]), st, events)
    requires var sys := Outcome(System(EMPTY_DISK, [], [], [], initial, None, map[]), st, events);
             1 <= n <= |sys.history|
    ensures var sys := Outcome(System(EMPTY_DISK, [], [], [], initial, None, map[]), st, events);
            && n <= |sys.asked| && n in sys.disk.prepares && PreparedWith(sys.disk.prepares[n], sys.asked[n - 1])
            && (n in sys.disk.transactions ==> LoggedWith(sys.disk.transactions[n], n, sys.asked[n - 1]))
            && (n < |sys.history| || sys.holder.None? ==> n in sys.disk.transactions)
  {
    EmptyDiskInv(st.options);
    var sys0 := System(EMPTY_DISK, [], [], [], initial, None, map[]);
    InterleavingKeepsDetails(sys0, st, events);
    var sys := Outcome(sys0, st, events);
    InvParts(sys.disk, sys.history, st.options);
    assert PreparedWith(sys.history[n - 1], sys.asked[n - 1]);
    LogComplete(sys.disk, sys.history, st.options);
    if n in sys.disk.transactions {
      assert RecordFor(sys.disk.transactions[n], sys.history[n - 1]);
    }
  }
}
