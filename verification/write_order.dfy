/** In which order commits and recovery write. */
module WriteOrder {
  import opened StorageDisk
  import opened EncodedGraph
  import opened CommitPlan
  import opened Folding

  /** The place of a write in the order of a commit. */
  function Stage(w: Write): nat {
    match w
    case PutPrepare(_) => 0
    case PutBinary(_) => 1
    case PutJson(_) => 1
    case PutSnapshot(_, _) => 3
    case PutCommit(_) => 4
    case PutTransaction(_) => 5
    case PutCurrent(_) => 10
    case PutManifest(_) => 11
    case PutDerived(f, _) =>
      match f
      case TypeDictionary => 2
      case Journal => 6
      case ParentIndex => 7
      case ConstraintRecord => 8
      case PersistentIndex => 9
  }

  ghost predicate StagesAscend(ws: seq<Write>, from: nat, to: nat) {
    && (forall w | w in ws :: from <= Stage(w) <= to)
    && forall i, j | 0 <= i < j < |ws| :: Stage(ws[i]) <= Stage(ws[j])
  }

  /** The writes are of these stages, none before one of an earlier stage. */
  ghost predicate InStages(ws: seq<Write>, from: nat, to: nat) {
    forall u {:trigger Unfold(u)} | Unfold(u) :: StagesAscend(ws, from, to)
  }

  lemma StagesJoin(a: seq<Write>, b: seq<Write>, from: nat, mid: nat, to: nat)
    requires InStages(a, from, mid) && InStages(b, mid, to) && from <= mid <= to
    ensures InStages(a + b, from, to)
  {
    assert Unfold(true);
    var ws := a + b;
    forall i, j | 0 <= i < j < |ws| ensures Stage(ws[i]) <= Stage(ws[j]) {
      assert i < |a| ==> ws[i] in a;
      assert j >= |a| ==> ws[j] in b;
    }
  }

  lemma OneStage(w: Write, from: nat, to: nat)
    requires from <= Stage(w) <= to
    ensures InStages([w], from, to)
  {
  }

  lemma MaybeStage(yes: bool, w: Write, from: nat, to: nat)
    requires from <= Stage(w) <= to
    ensures InStages(if yes then [w] else [], from, to)
  {
  }

  lemma RecordStageOf(order: WorkerOrder, e: Envelope, n: nat, ids: set<ObjectId>, format: RecordFormat)
    requires Interleaves(order)
    ensures InStages(order(ObjectWrites(e, n, ids, format)), 1, 1)
  {
    var ws := ObjectWrites(e, n, ids, format);
    forall w | w in order(ws) ensures Stage(w) == 1 {
      assert w in ws;
    }
    forall i | 0 <= i < |order(ws)| ensures Stage(order(ws)[i]) == 1 {
      assert order(ws)[i] in order(ws);
    }
  }

  lemma LogStages(log: Log, p: WalPrepare, record: TransactionRecord)
    ensures InStages(LogWrites(log, p.transactionId, record), 4, 6)
  {
    OneStage(PutTransaction(record), 4, 5);
    OneStage(PutDerived(Journal, p.transactionId), 5, 6);
    StagesJoin([PutTransaction(record)], [PutDerived(Journal, p.transactionId)], 4, 5, 6);
  }

  ghost function LogWrites(log: Log, n: nat, record: TransactionRecord): seq<Write> {
    if LatestTransaction(log).Some? && LatestTransaction(log).value.payload.transactionId == n then []
    else [PutTransaction(record)] + [PutDerived(Journal, n)]
  }

  function IndexWrites(n: nat): seq<Write> {
    [PutDerived(ParentIndex, n)] + [PutDerived(ConstraintRecord, n)] + [PutDerived(PersistentIndex, n)]
  }

  lemma IndexStages(n: nat)
    ensures InStages(IndexWrites(n), 6, 9)
  {
    OneStage(PutDerived(ParentIndex, n), 6, 7);
    OneStage(PutDerived(ConstraintRecord, n), 7, 8);
    OneStage(PutDerived(PersistentIndex, n), 8, 9);
    StagesJoin([PutDerived(ParentIndex, n)], [PutDerived(ConstraintRecord, n)], 6, 7, 8);
    StagesJoin([PutDerived(ParentIndex, n)] + [PutDerived(ConstraintRecord, n)], [PutDerived(PersistentIndex, n)], 6, 8,
               9);
  }

  lemma PublishStages(log: Log, o: WriteOptions, p: WalPrepare, versions: map<ObjectId, nat>, metadata: Option<string>)
    ensures InStages(PublishPlan(log, o, p, versions, metadata), 4, 11)
  {
    var n, record := p.transactionId, PublishedRecord(log, p, metadata);
    var current := if o.writeSnapshots then [PutCurrent(p.snapshotFile)] else [];
    var manifest := PutManifest(ManifestOf(p, versions, record.transactionHash));
    LogStages(log, p, record);
    IndexStages(n);
    MaybeStage(o.writeSnapshots, PutCurrent(p.snapshotFile), 9, 10);
    OneStage(manifest, 10, 11);
    StagesJoin(LogWrites(log, n, record), IndexWrites(n), 4, 6, 9);
    StagesJoin(LogWrites(log, n, record) + IndexWrites(n), current, 4, 9, 10);
    StagesJoin(LogWrites(log, n, record) + IndexWrites(n) + current, [manifest], 4, 10, 11);
    assert PublishPlan(log, o, p, versions, metadata) ==
           LogWrites(log, n, record) + IndexWrites(n) + current + [manifest];
  }

  lemma BeforeStages(o: WriteOptions, s: Session, req: CommitRequest, order: WorkerOrder)
    requires Interleaves(order)
    ensures InStages(BeforeMarker(o, s, req, order), 0, 3)
  {
    var n, p := s.transactionId + 1, PrepareOf(s.transactionId + 1, req);
    var ids := ObjectIdsToWrite(s.objectVersions, req.envelope.nodes.Keys, req.objectIds);
    var records := order(ObjectWrites(req.envelope, n, ids, o.format));
    var types := if req.typesChanged then [PutDerived(TypeDictionary, n)] else [];
    var snapshot := if o.writeSnapshots then [PutSnapshot(n, req.envelope)] else [];
    RecordStageOf(order, req.envelope, n, ids, o.format);
    OneStage(PutPrepare(p), 0, 1);
    MaybeStage(req.typesChanged, PutDerived(TypeDictionary, n), 1, 2);
    MaybeStage(o.writeSnapshots, PutSnapshot(n, req.envelope), 2, 3);
    StagesJoin([PutPrepare(p)], records, 0, 1, 1);
    StagesJoin([PutPrepare(p)] + records, types, 0, 1, 2);
    StagesJoin([PutPrepare(p)] + records + types, snapshot, 0, 2, 3);
  }

  lemma ThroughStages(o: WriteOptions, s: Session, req: CommitRequest, order: WorkerOrder)
    requires Interleaves(order)
    ensures InStages(ThroughMarker(o, s, req, order), 0, 4)
  {
    BeforeStages(o, s, req, order);
    var marker := PutCommit(MarkerOf(PrepareOf(s.transactionId + 1, req)));
    OneStage(marker, 3, 4);
    StagesJoin(BeforeMarker(o, s, req, order), [marker], 0, 3, 4);
  }

  ghost predicate Publishes(ws: seq<Write>, p: WalPrepare) {
    exists log, o, versions, metadata :: ws == PublishPlan(log, o, p, versions, metadata)
  }

  lemma PublishedStages(ws: seq<Write>, p: WalPrepare)
    requires Publishes(ws, p)
    ensures InStages(ws, 4, 11)
  {
    var log, o, versions, metadata :| ws == PublishPlan(log, o, p, versions, metadata);
    PublishStages(log, o, p, versions, metadata);
  }

  lemma PartPublishes(d: Disk, o: WriteOptions, s: Session, req: CommitRequest, order: WorkerOrder)
    ensures Publishes(PublishPart(d, o, s, req, order), PrepareOf(s.transactionId + 1, req))
  {
  }

  /**
   * A commit prepares, writes records, types and snapshot, sets its marker, and only then publishes: transaction
   * record, journal, indexes, CURRENT, and the manifest last.
   */
  lemma CommitOrder(d: Disk, o: WriteOptions, s: Session, req: CommitRequest, order: WorkerOrder)
    requires Interleaves(order)
    ensures InStages(CommitWrites(d, o, s, req, order), 0, 11)
  {
    ThroughStages(o, s, req, order);
    PartPublishes(d, o, s, req, order);
    PublishedStages(PublishPart(d, o, s, req, order), PrepareOf(s.transactionId + 1, req));
    StagesJoin(ThroughMarker(o, s, req, order), PublishPart(d, o, s, req, order), 0, 4, 11);
  }

  /** So does the recovery of one commit, from its records on. */
  lemma RecoveryOrder(d: Disk, o: WriteOptions, c: WalCommit, order: WorkerOrder)
    requires Interleaves(order)
    ensures InStages(RecoverOne(d, o, c, order), 1, 11)
  {
    var p := PreparedFor(d, c);
    if p.Some? {
      RecordStageOf(order, p.value.envelope, p.value.transactionId, p.value.objectIds, o.format);
      var records := order(ObjectWrites(p.value.envelope, p.value.transactionId, p.value.objectIds, o.format));
      var snapshot := if o.writeSnapshots then [PutSnapshot(p.value.snapshotFile, p.value.envelope)] else [];
      MaybeStage(o.writeSnapshots, PutSnapshot(p.value.snapshotFile, p.value.envelope), 1, 4);
      StagesJoin(records, snapshot, 1, 1, 4);
      var first := RestoreWrites(o, p.value, order);
      PublishStages(ApplyAll(d, first).transactions, o, p.value,
                    UniformVersions(p.value.envelope, p.value.transactionId), None);
      StagesJoin(first, PublishPlan(ApplyAll(d, first).transactions, o, p.value,
                                    UniformVersions(p.value.envelope, p.value.transactionId), None), 1, 4, 11);
    }
  }
}
