/** The stages of a commit and of recovery. */
module CommitSafety {
  // Commit and recovery as stages: each keeps the invariant at every write, and what each leaves on disk.

  import opened EncodedGraph
  import opened StorageDisk
  import opened CommitPlan
  import opened CrashInvariant
  import opened WriteTraces

  /** The records of `p` for `ids` are readable at its number; other versions read as before. */
  ghost predicate RecordsHold(rs: Records, rs': Records, p: WalPrepare, ids: set<ObjectId>) {
    && (forall id: ObjectId, v: nat | v != p.transactionId :: ReadObject(rs', id, v) == ReadObject(rs, id, v))
    && (forall id | id in ids && id in p.envelope.nodes ::
      ReadObject(rs', id, p.transactionId) == Some(RecordOf(p.envelope, p.transactionId, id)))
  }

  lemma RecordStage(d: Disk, h: History, o: WriteOptions, p: WalPrepare, ids: set<ObjectId>, order: WorkerOrder)
    requires Inv(d, h, o) && p.transactionId > PublishedId(d.manifest) && Interleaves(order)
    ensures var ws := order(ObjectWrites(p.envelope, p.transactionId, ids, o.format));
            var d1 := ApplyAll(d, ws);
            && Throughout(d, ws, Invariant(h, o)) && Inv(d1, h, o)
            && d1 == d.(records := d1.records)
            && RecordsHold(d.records, d1.records, p, ids)
  {
    var ws := order(ObjectWrites(p.envelope, p.transactionId, ids, o.format));
    assert o.format.JsonOnly? ==> d.records.binary == map[] by { InvParts(d, h, o); }
    RecordWritesThroughout(d, ws, h, o, p.transactionId);
    RecordWritesOnly(d, ws, p.transactionId);
    forall id | id in ids && id in p.envelope.nodes
      ensures ReadObject(ApplyAll(d, ws).records, id, p.transactionId) ==
              Some(RecordOf(p.envelope, p.transactionId, id))
    {
      RecordsReadable(d, p.envelope, p.transactionId, ids, o.format, order, id);
    }
    ThroughoutEnd(d, ws, Invariant(h, o));
  }

  lemma {:induction false} ThroughoutEnd(d: Disk, ws: seq<Write>, p: Disk -> bool)
    requires Throughout(d, ws, p)
    ensures p(ApplyAll(d, ws))
  {
    ThroughoutPrefix(d, ws, p, |ws|);
    assert ws[..|ws|] == ws;
  }

  function SnapshotWrites(o: WriteOptions, p: WalPrepare): seq<Write> {
    if o.writeSnapshots then [PutSnapshot(p.snapshotFile, p.envelope)] else []
  }

  ghost predicate SnapshotHolds(d: Disk, o: WriteOptions, p: WalPrepare) {
    && (p.snapshotFile in d.snapshots ==> d.snapshots[p.snapshotFile] == p.envelope)
    && (o.writeSnapshots ==> p.snapshotFile in d.snapshots)
  }

  lemma SnapshotStage(d: Disk, h: History, o: WriteOptions, p: WalPrepare)
    requires Inv(d, h, o) && ValidPrepare(p, p.transactionId) && 1 <= p.transactionId
    requires p.transactionId <= |h| ==> p == h[p.transactionId - 1]
    ensures var ws := SnapshotWrites(o, p);
            var d1 := ApplyAll(d, ws);
            && Throughout(d, ws, Invariant(h, o)) && Inv(d1, h, o)
            && d1 == d.(snapshots := d1.snapshots) && SnapshotHolds(d1, o, p)
  {
    if o.writeSnapshots {
      StepSnapshot(d, h, o, PutSnapshot(p.snapshotFile, p.envelope));
      ThroughoutOne(d, PutSnapshot(p.snapshotFile, p.envelope), Invariant(h, o));
    } else {
      InvParts(d, h, o);
    }
  }

  lemma {:induction false} DerivedStage(d: Disk, h: History, o: WriteOptions, ws: seq<Write>)
    requires Inv(d, h, o) && forall i | 0 <= i < |ws| :: ws[i].PutDerived?
    ensures var d1 := ApplyAll(d, ws);
            Throughout(d, ws, Invariant(h, o)) && Inv(d1, h, o) && d1 == d.(derived := d1.derived)
    decreases |ws|
  {
    if ws != [] {
      StepDerived(d, h, o, ws[0]);
      DerivedStage(Apply(d, ws[0]), h, o, ws[1..]);
    }
  }

  lemma Join(d: Disk, a: seq<Write>, b: seq<Write>, p: Disk -> bool)
    requires Throughout(d, a, p) && Throughout(ApplyAll(d, a), b, p)
    ensures Throughout(d, a + b, p) && ApplyAll(d, a + b) == ApplyAll(ApplyAll(d, a), b)
  {
    ThroughoutConcat(d, a, b, p);
    ApplyAllConcat(d, a, b);
  }

  /** What stands on disk when the marker of `p` is about to be written. */
  ghost predicate Staged(d: Disk, d1: Disk, o: WriteOptions, p: WalPrepare, ids: set<ObjectId>) {
    && d1.transactions == d.transactions && d1.manifest == d.manifest && d1.current == d.current
    && d1.commits == d.commits
    && RecordsHold(d.records, d1.records, p, ids)
    && SnapshotHolds(d1, o, p)
  }

  lemma BeforeMarkerSafe(d: Disk, h: History, o: WriteOptions, s: Session, req: CommitRequest, order: WorkerOrder)
    requires Inv(d, h, o) && Quiescent(d, h) && s.transactionId == |h| && Interleaves(order)
    ensures var p := PrepareOf(|h| + 1, req);
            var ws := BeforeMarker(o, s, req, order);
            var d1 := ApplyAll(d, ws);
            && Throughout(d, ws, Invariant(h, o)) && Inv(d1, h, o)
            && Staged(d, d1, o, p, ObjectIdsToWrite(s.objectVersions, req.envelope.nodes.Keys, req.objectIds))
            && p.transactionId in d1.prepares && d1.prepares[p.transactionId] == p
  {
    var p := PrepareOf(|h| + 1, req);
    var ids := ObjectIdsToWrite(s.objectVersions, req.envelope.nodes.Keys, req.objectIds);
    var w1 := [PutPrepare(p)];
    StepPrepare(d, h, o, p);
    ThroughoutOne(d, w1[0], Invariant(h, o));
    var d1 := ApplyAll(d, w1);
    var w2 := order(ObjectWrites(p.envelope, p.transactionId, ids, o.format));
    RecordStage(d1, h, o, p, ids, order);
    Join(d, w1, w2, Invariant(h, o));
    var d2 := ApplyAll(d1, w2);
    var w3 := if req.typesChanged then [PutDerived(TypeDictionary, |h| + 1)] else [];
    DerivedStage(d2, h, o, w3);
    Join(d, w1 + w2, w3, Invariant(h, o));
    var d3 := ApplyAll(d2, w3);
    SnapshotStage(d3, h, o, p);
    Join(d, w1 + w2 + w3, SnapshotWrites(o, p), Invariant(h, o));
  }

  function CurrentWrites(o: WriteOptions, p: WalPrepare): seq<Write> {
    if o.writeSnapshots then [PutCurrent(p.snapshotFile)] else []
  }

  lemma CurrentStage(d: Disk, h: History, o: WriteOptions, p: WalPrepare)
    requires Inv(d, h, o) && 1 <= p.snapshotFile <= |h| && (o.writeSnapshots ==> p.snapshotFile in d.snapshots)
    ensures var ws := CurrentWrites(o, p);
            var d1 := ApplyAll(d, ws);
            Throughout(d, ws, Invariant(h, o)) && Inv(d1, h, o) && d1 == d.(current := d1.current)
    ensures ApplyAll(d, CurrentWrites(o, p)).current == if o.writeSnapshots then Some(p.snapshotFile) else d.current
  {
    if o.writeSnapshots {
      StepCurrent(d, h, o, p.snapshotFile);
      ThroughoutOne(d, PutCurrent(p.snapshotFile), Invariant(h, o));
    }
  }

  function LogWrites(log: Log, r: TransactionRecord): seq<Write> {
    if r.payload.transactionId in log then []
    else [PutTransaction(r), PutDerived(Journal, r.payload.transactionId)]
  }

  lemma LogStage(d: Disk, h: History, o: WriteOptions, metadata: Option<string>)
    requires Inv(d, h, o) && h != []
    ensures var r := PublishedRecord(d.transactions, h[|h| - 1], metadata);
            var ws := LogWrites(d.transactions, r);
            var d1 := ApplyAll(d, ws);
            && Throughout(d, ws, Invariant(h, o)) && Inv(d1, h, o) && r.payload.transactionId == |h|
            && d1 == d.(transactions := d1.transactions, derived := d1.derived)
            && d1.transactions == d.transactions[|h| := r] && LogLength(d1.transactions) == |h|
  {
    var r := PublishedRecord(d.transactions, h[|h| - 1], metadata);
    assert ValidHistory(h) && LogInv(d.transactions, h) by { InvParts(d, h, o); }
    LatestIsLogEnd(d.transactions, h);
    if LogLength(d.transactions) == |h| {
      assert RecordFor(d.transactions[|h|], h[|h| - 1]);
      assert d.transactions[|h| := r] == d.transactions;
    } else {
      ExtendLog(d.transactions, h, metadata);
      StepTransaction(d, h, o, metadata);
      ThroughoutOne(d, PutTransaction(r), Invariant(h, o));
      var d1 := Apply(d, PutTransaction(r));
      DerivedStage(d1, h, o, [PutDerived(Journal, |h|)]);
      Join(d, [PutTransaction(r)], [PutDerived(Journal, |h|)], Invariant(h, o));
    }
  }

  /** The disk that publication leads to, the derived files aside. */
  ghost predicate PublishedAs(d: Disk, d': Disk, o: WriteOptions, p: WalPrepare, versions: map<ObjectId, nat>,
                              r: TransactionRecord) {
    d' == d.(transactions := d.transactions[p.transactionId := r],
             current := if o.writeSnapshots then Some(p.snapshotFile) else d.current,
             manifest := Some(ManifestOf(p, versions, r.transactionHash)),
             derived := d'.derived)
  }

  lemma PublishPlanShape(log: Log, h: History, o: WriteOptions, versions: map<ObjectId, nat>, metadata: Option<string>)
    requires ValidHistory(h) && LogInv(log, h) && h != []
    ensures var p := h[|h| - 1];
            var r := PublishedRecord(log, p, metadata);
            PublishPlan(log, o, p, versions, metadata) ==
              LogWrites(log, r) +
              [PutDerived(ParentIndex, |h|), PutDerived(ConstraintRecord, |h|), PutDerived(PersistentIndex, |h|)] +
              CurrentWrites(o, p) + [PutManifest(ManifestOf(p, versions, r.transactionHash))]
  {
    LatestIsLogEnd(log, h);
    assert ValidPrepare(h[|h| - 1], |h|);
  }

  lemma PublishSafe(d: Disk, h: History, o: WriteOptions, versions: map<ObjectId, nat>, metadata: Option<string>)
    requires Inv(d, h, o) && h != []
    requires VersionsInv(d.records, h, h[|h| - 1], versions)
    requires o.writeSnapshots ==> |h| in d.snapshots
    ensures var p := h[|h| - 1];
            var ws := PublishPlan(d.transactions, o, p, versions, metadata);
            var d' := ApplyAll(d, ws);
            && Throughout(d, ws, Invariant(h, o)) && Inv(d', h, o) && Quiescent(d', h)
            && PublishedAs(d, d', o, p, versions, PublishedRecord(d.transactions, p, metadata))
  {
    var p := h[|h| - 1];
    assert ValidPrepare(p, |h|) && ValidHistory(h) && LogInv(d.transactions, h) by { InvParts(d, h, o); }
    var r := PublishedRecord(d.transactions, p, metadata);
    PublishPlanShape(d.transactions, h, o, versions, metadata);
    var w1 := LogWrites(d.transactions, r);
    LogStage(d, h, o, metadata);
    var d1 := ApplyAll(d, w1);
    var w2 := [PutDerived(ParentIndex, |h|), PutDerived(ConstraintRecord, |h|), PutDerived(PersistentIndex, |h|)];
    DerivedStage(d1, h, o, w2);
    Join(d, w1, w2, Invariant(h, o));
    var d2 := ApplyAll(d1, w2);
    CurrentStage(d2, h, o, p);
    Join(d, w1 + w2, CurrentWrites(o, p), Invariant(h, o));
    var d3 := ApplyAll(d2, CurrentWrites(o, p));
    StepManifest(d3, h, o, versions);
    var w4 := [PutManifest(ManifestOf(p, versions, r.transactionHash))];
    ThroughoutOne(d3, w4[0], Invariant(h, o));
    Join(d, w1 + w2 + CurrentWrites(o, p), w4, Invariant(h, o));
  }
}
