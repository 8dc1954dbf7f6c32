/** Several managers, write by write. */
module ConcurrentTransactions {
  // Several managers over one target, interleaved write by write: optimistic transactions read and work without the
  // lock and check for a conflict under it, pessimistic ones hold it from read to commit.

  import opened EncodedGraph
  import opened StorageDisk
  import opened CommitPlan
  import opened CrashInvariant
  import opened RecoverySafety
  import opened CommitExactness
  import opened CrashRuns
  import opened ConcurrentReads

  type ManagerId = nat

  /** The callback of a transaction: the next root graph, or `None` when it throws. */
  type Work = Envelope -> Option<Envelope>

  datatype Details = Details(targetCount: nat, metadata: Option<string>, schemaVersion: nat, typesChanged: bool)

  /** The commit a lock holder is in: disk and history it started from, its writes, and which of them is the marker. */
  datatype Task = Task(start: Disk, before: History, request: CommitRequest, plan: seq<Write>, markerAt: nat)

  datatype Phase =
    | Idle
    | Reading(look: Look, since: nat, work: Work, details: Details)
    | Attempt(base: nat, seen: Envelope, next: Envelope, work: Work, details: Details)
    | Writing(task: Task, done: nat)

  /**
   * `works[i]` is the callback of transaction `i + 1` and `asked[i]` what it was called with besides; `initial` is what
   * `rootFactory` builds for an empty store.
   */
  datatype System = System(
    disk: Disk, history: History, works: seq<Work>, asked: seq<Details>, initial: Envelope,
    holder: Option<ManagerId>, phases: map<ManagerId, Phase>)

  /**
   * An optimistic transaction reads look by look, works, and then locks and checks. A pessimistic one reads under the
   * lock, where no write can come between its looks, so that its reload is one step.
   */
  datatype Event =
    | BeginRead(m: ManagerId, work: Work, details: Details)
    | LookAgain(m: ManagerId, id: ObjectId)
    | RunWork(m: ManagerId)
    | LockAndCheck(m: ManagerId, order: WorkerOrder)
    | LockReadAndWork(m: ManagerId, work: Work, details: Details, order: WorkerOrder)
    | WriteNext(m: ManagerId)
    | Release(m: ManagerId)

  function EagerRequest(e: Envelope, x: Details): CommitRequest {
    CommitRequest(e, Eager, e.nodes.Keys, x.targetCount, x.metadata, x.schemaVersion, x.typesChanged)
  }

  function PhaseOf(sys: System, m: ManagerId): Phase {
    if m in sys.phases then sys.phases[m] else Idle
  }

  function SetPhase(sys: System, m: ManagerId, p: Phase): System {
    sys.(phases := sys.phases[m := p])
  }

  /** `readCurrentTransactionId`: the later of manifest and transaction log. */
  ghost function CurrentId(d: Disk): nat {
    var p, t := PublishedId(d.manifest), LatestTransactionId(d.transactions);
    if p > t then p else t
  }

  /** `reloadLatestLocked` while nobody writes: transaction number and root as the reader finds them. */
  ghost function Reloaded(sys: System): (nat, Envelope) {
    match Load(sys.disk)
    case Loaded(_, e, s) => (s.transactionId, e)
    case _ => (0, sys.initial)
  }

  function RecordOfTask(t: Task): WalPrepare {
    PrepareOf(|t.before| + 1, t.request)
  }

  /** Being eager, the commit depends on its manager's session only through the transaction number. */
  ghost function TaskOf(sys: System, st: Store, req: CommitRequest, order: WorkerOrder): Task {
    var s := Session(|sys.history|, map[], req.schemaVersion);
    Task(sys.disk, sys.history, req, CommitWrites(sys.disk, st.options, s, req, order),
         |BeforeMarker(st.options, s, req, order)|)
  }

  ghost function BeginWriting(sys: System, st: Store, m: ManagerId, e: Envelope, work: Work, x: Details,
                              order: WorkerOrder): System {
    SetPhase(sys, m, Writing(TaskOf(sys, st, EagerRequest(e, x), order), 0)).(holder := Some(m),
        works := sys.works + [work], asked := sys.asked + [x])
  }

  ghost predicate Enabled(sys: System, st: Store, ev: Event) {
    var p := PhaseOf(sys, ev.m);
    match ev
    case BeginRead(_, _, _) => p.Idle?
    case LookAgain(_, _) => p.Reading? && !p.look.Done?
    case RunWork(_) => p.Reading? && p.look.Done?
    case LockAndCheck(_, order) => p.Attempt? && sys.holder.None? && Interleaves(order)
    case LockReadAndWork(_, _, _, order) => p.Idle? && sys.holder.None? && Interleaves(order)
    case WriteNext(_) => p.Writing? && p.done < |p.task.plan|
    case Release(_) => p.Writing? && p.done == |p.task.plan|
  }

  ghost function Next(sys: System, st: Store, ev: Event): System
    requires Enabled(sys, st, ev)
  {
    var p := PhaseOf(sys, ev.m);
    match ev
    case BeginRead(m, work, x) => SetPhase(sys, m, Reading(FirstLook(sys.disk), |sys.history|, work, x))
    case LookAgain(m, id) => SetPhase(sys, m, p.(look := NextLook(sys.disk, sys.initial, p.look, id)))
    case RunWork(m) =>
      var result := p.work(p.look.root);
      SetPhase(sys, m, if result.None? then Idle
                       else Attempt(p.look.transactionId, p.look.root, result.value, p.work, p.details))
    case LockAndCheck(m, order) =>
      if CurrentId(sys.disk) != p.base then SetPhase(sys, m, Idle)
      else BeginWriting(sys, st, m, p.next, p.work, p.details, order)
    case LockReadAndWork(m, work, x, order) =>
      var (_, root) := Reloaded(sys);
      var result := work(root);
      if result.None? then sys else BeginWriting(sys, st, m, result.value, work, x, order)
    case WriteNext(m) =>
      var sys' := SetPhase(sys, m, p.(done := p.done + 1)).(disk := Apply(sys.disk, p.task.plan[p.done]));
      if p.done == p.task.markerAt then sys'.(history := sys.history + [RecordOfTask(p.task)]) else sys'
    case Release(m) => SetPhase(sys, m, Idle).(holder := None)
  }

  /** Each committed root is its transaction's work applied to the root of the number just below. */
  ghost predicate Serial(initial: Envelope, h: History, works: seq<Work>) {
    && |h| <= |works|
    && forall i | 0 <= i < |h| :: works[i](RootAt(initial, h, i)) == Some(h[i].envelope)
  }

  ghost predicate ReadingInv(sys: System, p: Phase)
    requires p.Reading?
  {
    LookInv(sys.disk, sys.history, sys.initial, p.since, p.look)
  }

  ghost predicate AttemptInv(sys: System, p: Phase)
    requires p.Attempt?
  {
    && p.base <= |sys.history|
    && p.seen == RootAt(sys.initial, sys.history, p.base)
    && p.work(p.seen) == Some(p.next)
  }

  ghost function HistoryAfter(t: Task, done: nat): History {
    if done <= t.markerAt then t.before else t.before + [RecordOfTask(t)]
  }

  /** At every point of the commit the disk is sound, for the history with or without the transaction. */
  ghost predicate TaskSound(st: Store, t: Task) {
    && t.markerAt < |t.plan|
    && (forall k: nat {:trigger t.plan[..k]} | k <= |t.plan| ::
      Inv(ApplyAll(t.start, t.plan[..k]), HistoryAfter(t, k), st.options))
    && Quiescent(ApplyAll(t.start, t.plan[..|t.plan|]), t.before + [RecordOfTask(t)])
    && RecordsFirst(t)
  }

  /** Records are written before the marker, under the new number. */
  ghost predicate RecordsFirst(t: Task) {
    forall k | 0 <= k < |t.plan| && (t.plan[k].PutBinary? || t.plan[k].PutJson?) ::
      k < t.markerAt && t.plan[k].record.transactionId == |t.before| + 1
  }

  ghost predicate WritingInv(sys: System, st: Store, t: Task, done: nat) {
    && TaskSound(st, t)
    && done <= |t.plan|
    && sys.disk == ApplyAll(t.start, t.plan[..done])
    && sys.history == HistoryAfter(t, done)
    && |sys.works| == |t.before| + 1
    && sys.works[|t.before|](RootAt(sys.initial, t.before, |t.before|)) == Some(t.request.envelope)
  }

  ghost predicate SystemInv(sys: System, st: Store) {
    && Inv(sys.disk, sys.history, st.options)
    && Serial(sys.initial, sys.history, sys.works)
    && (forall m | m in sys.phases && sys.phases[m].Reading? :: ReadingInv(sys, sys.phases[m]))
    && (forall m | m in sys.phases && sys.phases[m].Attempt? :: AttemptInv(sys, sys.phases[m]))
    && (forall m | m in sys.phases && sys.phases[m].Writing? ::
         sys.holder == Some(m) && WritingInv(sys, st, sys.phases[m].task, sys.phases[m].done))
    && (sys.holder.Some? ==> PhaseOf(sys, sys.holder.value).Writing?)
    && (sys.holder.None? ==> Quiescent(sys.disk, sys.history) && |sys.works| == |sys.history|)
  }

  /** Whoever reads while nobody writes, mid-commit or not, reads the last committed transaction. */
  lemma ReloadedIsLast(sys: System, st: Store)
    requires Inv(sys.disk, sys.history, st.options)
    ensures Reloaded(sys) == (|sys.history|, RootAt(sys.initial, sys.history, |sys.history|))
  {
    LoadExact(sys.disk, sys.history, st.options);
  }

  lemma CurrentIsLast(d: Disk, h: History, o: WriteOptions)
    requires Inv(d, h, o) && Quiescent(d, h)
    ensures CurrentId(d) == |h|
  {
    Progress(d, h, o);
  }

  /** A transaction is the current one as soon as its log record stands, published or not. */
  lemma CurrentIsLogged(d: Disk, h: History, o: WriteOptions)
    requires Inv(d, h, o)
    ensures CurrentId(d) == LatestTransactionId(d.transactions)
    ensures |h| in d.transactions ==> CurrentId(d) == |h|
  {
    Progress(d, h, o);
    InvParts(d, h, o);
    LatestIsLogEnd(d.transactions, h);
  }

  /** A session in step with the disk plans the same eager commit as one that remembers no versions. */
  lemma EagerPlan(d: Disk, o: WriteOptions, s: Session, req: CommitRequest, order: WorkerOrder)
    requires req.objectIds == req.envelope.nodes.Keys
    ensures var s0 := Session(s.transactionId, map[], req.schemaVersion);
            && CommitWrites(d, o, s, req, order) == CommitWrites(d, o, s0, req, order)
            && ThroughMarker(o, s, req, order) == ThroughMarker(o, s0, req, order)
            && VersionsAfter(s, req) == VersionsAfter(s0, req)
  {
    var all := req.envelope.nodes.Keys;
    assert ObjectIdsToWrite(s.objectVersions, all, all) == all == ObjectIdsToWrite(map[], all, all);
    assert VersionsAfter(s, req) == VersionsAfter(Session(s.transactionId, map[], req.schemaVersion), req);
  }

  lemma TaskSoundIf(st: Store, t: Task)
    requires t.markerAt < |t.plan|
    requires forall k: nat | k <= |t.plan| :: Inv(ApplyAll(t.start, Cut(t.plan, k)), HistoryAfter(t, k), st.options)
    requires Quiescent(ApplyAll(t.start, t.plan), t.before + [RecordOfTask(t)]) && RecordsFirst(t)
    ensures TaskSound(st, t)
  {
    assert t.plan[..|t.plan|] == t.plan;
    forall k: nat | k <= |t.plan|
      ensures Inv(ApplyAll(t.start, t.plan[..k]), HistoryAfter(t, k), st.options)
    {
      assert Cut(t.plan, k) == t.plan[..k];
    }
  }

  lemma NewTaskPlan(sys: System, st: Store, req: CommitRequest, order: WorkerOrder, s: Session)
    requires req.objectIds == req.envelope.nodes.Keys && s.transactionId == |sys.history|
    ensures var t := TaskOf(sys, st, req, order);
            && t.plan == CommitWrites(sys.disk, st.options, s, req, order)
            && t.markerAt + 1 == |ThroughMarker(st.options, s, req, order)| <= |t.plan|
  {
    EagerPlan(sys.disk, st.options, s, req, order);
  }

  lemma NewTaskCut(sys: System, st: Store, req: CommitRequest, order: WorkerOrder, s: Session, k: nat)
    requires Inv(sys.disk, sys.history, st.options) && Interleaves(order)
    requires InStep(sys.disk, sys.history, s) && KeepsUnwritten(LastEnvelope(sys.history), s.objectVersions, req)
    requires req.objectIds == req.envelope.nodes.Keys
    ensures var t := TaskOf(sys, st, req, order);
            Inv(ApplyAll(t.start, Cut(t.plan, k)), HistoryAfter(t, k), st.options)
  {
    NewTaskCutIs(sys, st, req, order, s, k);
    CommitCutSafe(sys.disk, sys.history, st.options, s, req, order, k);
  }

  lemma NewTaskCutIs(sys: System, st: Store, req: CommitRequest, order: WorkerOrder, s: Session, k: nat)
    requires req.objectIds == req.envelope.nodes.Keys && s.transactionId == |sys.history|
    ensures var t := TaskOf(sys, st, req, order);
            && ApplyAll(t.start, Cut(t.plan, k)) ==
               ApplyAll(sys.disk, Cut(CommitWrites(sys.disk, st.options, s, req, order), k))
            && HistoryAfter(t, k) == CutHistory(sys.history, st.options, s, req, order, k)
  {
    NewTaskPlan(sys, st, req, order, s);
  }

  lemma NewTaskDone(sys: System, st: Store, req: CommitRequest, order: WorkerOrder, s: Session)
    requires Inv(sys.disk, sys.history, st.options) && Interleaves(order)
    requires InStep(sys.disk, sys.history, s) && KeepsUnwritten(LastEnvelope(sys.history), s.objectVersions, req)
    requires req.objectIds == req.envelope.nodes.Keys
    ensures var t := TaskOf(sys, st, req, order);
            Quiescent(ApplyAll(t.start, t.plan), t.before + [RecordOfTask(t)])
  {
    NewTaskPlan(sys, st, req, order, s);
    CommitDoneSafe(sys.disk, sys.history, st.options, s, req, order);
  }

  lemma PublishHasNoRecords(log: Log, o: WriteOptions, p: WalPrepare, versions: map<ObjectId, nat>,
                            metadata: Option<string>)
    ensures forall w | w in PublishPlan(log, o, p, versions, metadata) :: !w.PutBinary? && !w.PutJson?
  {
  }

  lemma RecordsBefore(o: WriteOptions, s: Session, req: CommitRequest, order: WorkerOrder)
    requires Interleaves(order)
    ensures forall w | w in BeforeMarker(o, s, req, order) && (w.PutBinary? || w.PutJson?) ::
              w.record.transactionId == s.transactionId + 1
  {
    var ids := ObjectIdsToWrite(s.objectVersions, req.envelope.nodes.Keys, req.objectIds);
    var ws := ObjectWrites(req.envelope, s.transactionId + 1, ids, o.format);
    forall w | w in BeforeMarker(o, s, req, order) && (w.PutBinary? || w.PutJson?)
      ensures w.record.transactionId == s.transactionId + 1 {
      assert w in order(ws);
      assert w in ws;
    }
  }

  lemma NewTaskRecords(sys: System, st: Store, req: CommitRequest, order: WorkerOrder)
    requires Interleaves(order)
    ensures RecordsFirst(TaskOf(sys, st, req, order))
  {
    var s, t := Session(|sys.history|, map[], req.schemaVersion), TaskOf(sys, st, req, order);
    var before, publish := BeforeMarker(st.options, s, req, order), PublishPart(sys.disk, st.options, s, req, order);
    CommitShape(sys.disk, st.options, s, req, order);
    RecordsBefore(st.options, s, req, order);
    PublishHasNoRecords(ApplyAll(sys.disk, ThroughMarker(st.options, s, req, order)).transactions, st.options,
                        PrepareOf(s.transactionId + 1, req), VersionsAfter(s, req), req.metadata);
    forall k | |before| < k < |t.plan| ensures !t.plan[k].PutBinary? && !t.plan[k].PutJson? {
      assert t.plan[k] == publish[k - |before| - 1];
    }
    forall k | 0 <= k < |before| && (t.plan[k].PutBinary? || t.plan[k].PutJson?)
      ensures t.plan[k].record.transactionId == |t.before| + 1 {
      assert t.plan[k] == before[k];
    }
  }

  lemma NewTaskSound(sys: System, st: Store, req: CommitRequest, order: WorkerOrder)
    requires Inv(sys.disk, sys.history, st.options) && Quiescent(sys.disk, sys.history) && Interleaves(order)
    requires req.objectIds == req.envelope.nodes.Keys
    ensures TaskSound(st, TaskOf(sys, st, req, order))
  {
    var d, h, t := sys.disk, sys.history, TaskOf(sys, st, req, order);
    var s := if d.manifest.Some? then Session(|h|, d.manifest.value.objectVersions, d.manifest.value.schemaVersion)
             else Session(|h|, map[], req.schemaVersion);
    NewTaskPlan(sys, st, req, order, s);
    EagerKeepsUnwritten(LastEnvelope(h), s.objectVersions, req);
    forall k: nat
      ensures Inv(ApplyAll(t.start, Cut(t.plan, k)), HistoryAfter(t, k), st.options)
    {
      NewTaskCut(sys, st, req, order, s, k);
    }
    NewTaskDone(sys, st, req, order, s);
    NewTaskRecords(sys, st, req, order);
    TaskSoundIf(st, t);
  }

  lemma BeginKeepsInv(sys: System, st: Store, m: ManagerId, e: Envelope, work: Work, x: Details, order: WorkerOrder)
    requires SystemInv(sys, st) && sys.holder.None? && !PhaseOf(sys, m).Writing? && Interleaves(order)
    requires work(RootAt(sys.initial, sys.history, |sys.history|)) == Some(e)
    ensures SystemInv(BeginWriting(sys, st, m, e, work, x, order), st)
  {
    var sys' := BeginWriting(sys, st, m, e, work, x, order);
    var t := sys'.phases[m].task;
    NewTaskSound(sys, st, EagerRequest(e, x), order);
    assert t.plan[..0] == [];
    forall i | 0 <= i < |sys.history| ensures sys'.works[i] == sys.works[i] {}
  }

  lemma AppendKeepsAttempt(sys: System, sys': System, p: Phase)
    requires p.Attempt? && AttemptInv(sys, p) && sys'.initial == sys.initial && sys.history <= sys'.history
    ensures AttemptInv(sys', p)
  {
  }

  lemma SerialExtends(initial: Envelope, h: History, works: seq<Work>, p: WalPrepare)
    requires Serial(initial, h, works) && |works| == |h| + 1
    requires works[|h|](RootAt(initial, h, |h|)) == Some(p.envelope)
    ensures Serial(initial, h + [p], works)
  {
    forall i | 0 <= i < |h| + 1
      ensures works[i](RootAt(initial, h + [p], i)) == Some((h + [p])[i].envelope)
    {
      assert i < |h| ==> (h + [p])[i] == h[i];
      assert RootAt(initial, h + [p], i) == RootAt(initial, h, i);
    }
  }

  /** The lock holder's own part of the invariant moves along with its next write. */
  lemma HolderAdvances(sys: System, st: Store, m: ManagerId)
    requires SystemInv(sys, st) && Enabled(sys, st, WriteNext(m))
    ensures var sys' := Next(sys, st, WriteNext(m));
            && WritingInv(sys', st, sys.phases[m].task, sys.phases[m].done + 1)
            && Inv(sys'.disk, sys'.history, st.options)
  {
    var t, done := sys.phases[m].task, sys.phases[m].done;
    ApplyNext(t.start, t.plan, done);
  }

  lemma ApplyNext(d: Disk, ws: seq<Write>, k: nat)
    requires k < |ws|
    ensures ApplyAll(d, ws[..k + 1]) == Apply(ApplyAll(d, ws[..k]), ws[k])
  {
    ApplyAllConcat(d, ws[..k], [ws[k]]);
    assert ws[..k] + [ws[k]] == ws[..k + 1];
    assert [ws[k]][1..] == [];
  }

  /** A write of the holder leaves committed records and snapshots in place. */
  lemma WriteIsLater(sys: System, st: Store, m: ManagerId)
    requires SystemInv(sys, st) && Enabled(sys, st, WriteNext(m))
    ensures var sys' := Next(sys, st, WriteNext(m)); Later(sys.disk, sys.history, sys'.disk, sys'.history)
  {
    var p := sys.phases[m];
    assert WritingInv(sys, st, p.task, p.done) && RecordsFirst(p.task);
    ApplyIsLater(sys.disk, sys.history, p.task.plan[p.done], Next(sys, st, WriteNext(m)).history);
  }

  lemma ApplyIsLater(d: Disk, h: History, w: Write, h': History)
    requires h <= h' && (w.PutBinary? || w.PutJson? ==> w.record.transactionId == |h| + 1)
    ensures Later(d, h, Apply(d, w), h')
  {
    if w.PutBinary? || w.PutJson? {
      OtherVersionsUnaffected(d, w, |h| + 1);
    }
  }

  /** Everyone else's attempts and reads stay what they were. */
  lemma OthersKeep(sys: System, st: Store, m: ManagerId)
    requires SystemInv(sys, st) && Enabled(sys, st, WriteNext(m))
    ensures var sys' := Next(sys, st, WriteNext(m));
            && (forall k | k in sys'.phases && sys'.phases[k].Attempt? :: AttemptInv(sys', sys'.phases[k]))
            && (forall k | k in sys'.phases && sys'.phases[k].Reading? :: ReadingInv(sys', sys'.phases[k]))
  {
    var sys' := Next(sys, st, WriteNext(m));
    forall k | k in sys'.phases && sys'.phases[k].Attempt? ensures AttemptInv(sys', sys'.phases[k]) {
      AppendKeepsAttempt(sys, sys', sys.phases[k]);
    }
    WriteIsLater(sys, st, m);
    forall k | k in sys'.phases && sys'.phases[k].Reading? ensures ReadingInv(sys', sys'.phases[k]) {
      var q := sys.phases[k];
      LookLater(sys.disk, sys.history, sys'.disk, sys'.history, sys.initial, q.since, q.look);
    }
  }

  lemma StaysSerial(sys: System, st: Store, m: ManagerId)
    requires SystemInv(sys, st) && Enabled(sys, st, WriteNext(m))
    ensures var sys' := Next(sys, st, WriteNext(m)); Serial(sys'.initial, sys'.history, sys'.works)
  {
    var p := sys.phases[m];
    assert WritingInv(sys, st, p.task, p.done);
    if p.done == p.task.markerAt {
      SerialExtends(sys.initial, sys.history, sys.works, RecordOfTask(p.task));
    }
  }

  lemma WriteNextKeepsInv(sys: System, st: Store, m: ManagerId)
    requires SystemInv(sys, st) && Enabled(sys, st, WriteNext(m))
    ensures SystemInv(Next(sys, st, WriteNext(m)), st)
  {
    HolderAdvances(sys, st, m);
    StaysSerial(sys, st, m);
    OthersKeep(sys, st, m);
  }

  lemma LockAndCheckKeepsInv(sys: System, st: Store, m: ManagerId, order: WorkerOrder)
    requires SystemInv(sys, st) && Enabled(sys, st, LockAndCheck(m, order))
    ensures SystemInv(Next(sys, st, LockAndCheck(m, order)), st)
  {
    CurrentIsLast(sys.disk, sys.history, st.options);
    var p := sys.phases[m];
    if p.base == |sys.history| {
      BeginKeepsInv(sys, st, m, p.next, p.work, p.details, order);
    }
  }

  lemma BeginReadKeepsInv(sys: System, st: Store, m: ManagerId, work: Work, x: Details)
    requires SystemInv(sys, st) && Enabled(sys, st, BeginRead(m, work, x))
    ensures SystemInv(Next(sys, st, BeginRead(m, work, x)), st)
  {
    FirstLookInv(sys.disk, sys.history, st.options, sys.initial);
  }

  lemma LookAgainKeepsInv(sys: System, st: Store, m: ManagerId, id: ObjectId)
    requires SystemInv(sys, st) && Enabled(sys, st, LookAgain(m, id))
    ensures SystemInv(Next(sys, st, LookAgain(m, id)), st)
  {
    var p := sys.phases[m];
    assert ReadingInv(sys, p);
    LookStep(sys.disk, sys.history, st.options, sys.initial, p.since, p.look, id);
  }

  lemma RunWorkKeepsInv(sys: System, st: Store, m: ManagerId)
    requires SystemInv(sys, st) && Enabled(sys, st, RunWork(m))
    ensures SystemInv(Next(sys, st, RunWork(m)), st)
  {
    assert ReadingInv(sys, sys.phases[m]);
  }

  lemma LockReadKeepsInv(sys: System, st: Store, m: ManagerId, work: Work, x: Details, order: WorkerOrder)
    requires SystemInv(sys, st) && Enabled(sys, st, LockReadAndWork(m, work, x, order))
    ensures SystemInv(Next(sys, st, LockReadAndWork(m, work, x, order)), st)
  {
    ReloadedIsLast(sys, st);
    var result := work(Reloaded(sys).1);
    if result.Some? {
      BeginKeepsInv(sys, st, m, result.value, work, x, order);
    }
  }

  lemma ReleaseKeepsInv(sys: System, st: Store, m: ManagerId)
    requires SystemInv(sys, st) && Enabled(sys, st, Release(m))
    ensures SystemInv(Next(sys, st, Release(m)), st)
  {
  }

  lemma NextKeepsInv(sys: System, st: Store, ev: Event)
    requires SystemInv(sys, st) && Enabled(sys, st, ev)
    ensures SystemInv(Next(sys, st, ev), st) && Next(sys, st, ev).initial == sys.initial
  {
    match ev
    case BeginRead(m, work, x) => BeginReadKeepsInv(sys, st, m, work, x);
    case LookAgain(m, id) => LookAgainKeepsInv(sys, st, m, id);
    case RunWork(m) => RunWorkKeepsInv(sys, st, m);
    case LockAndCheck(m, order) => LockAndCheckKeepsInv(sys, st, m, order);
    case LockReadAndWork(m, work, x, order) => LockReadKeepsInv(sys, st, m, work, x, order);
    case WriteNext(m) => WriteNextKeepsInv(sys, st, m);
    case Release(m) => ReleaseKeepsInv(sys, st, m);
  }

  /** An attempt that conflicts or whose callback throws leaves disk, history and everyone else as they were. */
  lemma FailedAttemptChangesNothing(sys: System, st: Store, ev: Event)
    requires SystemInv(sys, st) && Enabled(sys, st, ev)
    requires match ev
             case BeginRead(_, _, _) => true
             case LookAgain(_, _) => true
             case RunWork(_) => true
             case LockAndCheck(m, _) => sys.phases[m].base != |sys.history|
             case LockReadAndWork(_, work, _, _) => work(RootAt(sys.initial, sys.history, |sys.history|)).None?
             case _ => false
    ensures var sys' := Next(sys, st, ev);
            && sys'.disk == sys.disk && sys'.history == sys.history && sys'.holder == sys.holder &&
               sys'.works == sys.works
            && forall k | k != ev.m :: PhaseOf(sys', k) == PhaseOf(sys, k)
  {
    ReloadedIsLast(sys, st);
    if sys.holder.None? {
      CurrentIsLast(sys.disk, sys.history, st.options);
    }
  }

  ghost predicate Interleaving(sys: System, st: Store, events: seq<Event>)
    decreases |events|
  {
    events == [] || (Enabled(sys, st, events[0]) && Interleaving(Next(sys, st, events[0]), st, events[1..]))
  }

  ghost function Outcome(sys: System, st: Store, events: seq<Event>): System
    requires Interleaving(sys, st, events)
    decreases |events|
  {
    if events == [] then sys else Outcome(Next(sys, st, events[0]), st, events[1..])
  }

  lemma {:induction false} InterleavingKeepsInv(sys: System, st: Store, events: seq<Event>)
    requires SystemInv(sys, st) && Interleaving(sys, st, events)
    ensures SystemInv(Outcome(sys, st, events), st) && Outcome(sys, st, events).initial == sys.initial
    decreases |events|
  {
    if events != [] {
      NextKeepsInv(sys, st, events[0]);
      InterleavingKeepsInv(Next(sys, st, events[0]), st, events[1..]);
    }
  }

  /**
   * Serializability. Whatever the interleaving, the committed transactions are numbered without gaps, each root is
   * its own callback applied to the root of the number just below, and any reader finds the last one.
   */
  lemma Serializable(initial: Envelope, st: Store, events: seq<Event>)
    requires Interleaving(System(EMPTY_DISK, [], [], [], initial, None, map[]), st, events)
    ensures var sys := Outcome(System(EMPTY_DISK, [], [], [], initial, None, map[]), st, events);
            && ValidHistory(sys.history)
            && (forall n :: n in sys.disk.commits <==> 1 <= n <= |sys.history|)
            && Serial(initial, sys.history, sys.works)
            && Reloaded(sys) == (|sys.history|, RootAt(initial, sys.history, |sys.history|))
  {
    EmptyDiskInv(st.options);
    var sys0 := System(EMPTY_DISK, [], [], [], initial, None, map[]);
    InterleavingKeepsInv(sys0, st, events);
    var sys := Outcome(sys0, st, events);
    MarkersAreHistory(sys.disk, sys.history, st.options);
    ReloadedIsLast(sys, st);
  }

  /**
   * A read finished among other managers' writes holds the root of a committed transaction. If it came from the WAL or
   * the manifest, that is none older than the last one committed when the read began.
   */
  lemma ReadsAreCommitted(initial: Envelope, st: Store, events: seq<Event>, m: ManagerId)
    requires Interleaving(System(EMPTY_DISK, [], [], [], initial, None, map[]), st, events)
    requires var p := PhaseOf(Outcome(System(EMPTY_DISK, [], [], [], initial, None, map[]), st, events), m);
             p.Reading? && p.look.Done?
    ensures var sys := Outcome(System(EMPTY_DISK, [], [], [], initial, None, map[]), st, events);
            var p := PhaseOf(sys, m);
            && p.look.transactionId <= |sys.history|
            && p.look.root == RootAt(initial, sys.history, p.look.transactionId)
            && (p.look.source == Some(FromWal) || p.look.source == Some(FromManifest) ==>
                  p.since <= p.look.transactionId)
  {
    EmptyDiskInv(st.options);
    var sys0 := System(EMPTY_DISK, [], [], [], initial, None, map[]);
    InterleavingKeepsInv(sys0, st, events);
    var sys := Outcome(sys0, st, events);
    assert ReadingInv(sys, sys.phases[m]);
  }
}
