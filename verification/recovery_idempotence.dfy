/** Interrupted recovery ends in one store. */
module RecoveryIdempotence {
  // Interrupted recovery: however often it is cut short and started again, it ends in the same store.

  import opened EncodedGraph
  import opened StorageDisk
  import opened CommitPlan
  import opened CrashInvariant
  import opened WriteTraces
  import opened CommitSafety
  import opened RecoverySafety
  import opened CrashRuns

  /** Equal but for the derived files, among them journal.log, whose append is not repeated. */
  ghost predicate SameStore(a: Disk, b: Disk) {
    a == b.(derived := a.derived)
  }

  /** Record files with all the records of `e` at version `n`. */
  function WithRecords(rs: Records, e: Envelope, n: nat, format: RecordFormat): Records {
    Records(if format.JsonOnly? then rs.binary else rs.binary + AllRecords(e, n),
            if format.BinaryOnly? then rs.json else rs.json + AllRecords(e, n))
  }

  function AllRecords(e: Envelope, n: nat): map<RecordKey, ObjectRecord> {
    map id | id in e.nodes :: RecordKey(id, n) := RecordOf(e, n, id)
  }

  lemma PutAbsorbed<K, V>(a: map<K, V>, b: map<K, V>, k: K, v: V)
    requires k in b && b[k] == v
    ensures a[k := v] + b == a + b
  {
  }

  /** The store that recovering the last transaction leads to. */
  ghost function Recovered(d: Disk, o: WriteOptions, p: WalPrepare): Disk {
    var r := PublishedRecord(d.transactions, p, None);
    d.(records := WithRecords(d.records, p.envelope, p.transactionId, o.format),
       snapshots := if o.writeSnapshots then d.snapshots[p.snapshotFile := p.envelope] else d.snapshots,
       transactions := d.transactions[p.transactionId := r],
       current := if o.writeSnapshots then Some(p.snapshotFile) else d.current,
       manifest := Some(ManifestOf(p, UniformVersions(p.envelope, p.transactionId), r.transactionHash)))
  }

  /** The writes recovery of `p` may perform, with `r` the transaction record it settles on. */
  ghost predicate RecoveryWrite(w: Write, o: WriteOptions, p: WalPrepare, r: TransactionRecord) {
    || w in ObjectWrites(p.envelope, p.transactionId, p.envelope.nodes.Keys, o.format)
    || (w == PutSnapshot(p.snapshotFile, p.envelope) && o.writeSnapshots)
    || w == PutTransaction(r)
    || w.PutDerived?
    || (w == PutCurrent(p.snapshotFile) && o.writeSnapshots)
    || w == PutManifest(ManifestOf(p, UniformVersions(p.envelope, p.transactionId), r.transactionHash))
  }

  lemma RecordWriteAbsorbed(rs: Records, o: WriteOptions, p: WalPrepare, w: Write)
    requires w in ObjectWrites(p.envelope, p.transactionId, p.envelope.nodes.Keys, o.format)
    ensures var rs' := if w.PutBinary? then rs.(binary := rs.binary[KeyOf(w.record) := w.record])
                       else rs.(json := rs.json[KeyOf(w.record) := w.record]);
            WithRecords(rs', p.envelope, p.transactionId, o.format) ==
                WithRecords(rs, p.envelope, p.transactionId, o.format)
  {
    var all := AllRecords(p.envelope, p.transactionId);
    var id := w.record.objectId;
    assert id in p.envelope.nodes && w.record == RecordOf(p.envelope, p.transactionId, id);
    assert KeyOf(w.record) in all && all[KeyOf(w.record)] == w.record;
    if w.PutBinary? {
      PutAbsorbed(rs.binary, all, KeyOf(w.record), w.record);
    } else {
      PutAbsorbed(rs.json, all, KeyOf(w.record), w.record);
    }
  }

  /** The transaction record recovery settles on does not change once it is on disk. */
  lemma RecordSettled(log: Log, p: WalPrepare, r: TransactionRecord)
    requires r == PublishedRecord(log, p, None) && r.payload.transactionId == p.transactionId
    requires forall k | k in log :: k <= p.transactionId
    ensures PublishedRecord(log[p.transactionId := r], p, None) == r
  {
    var log' := log[p.transactionId := r];
    assert p.transactionId in log'.Keys;
    assert Highest(log'.Keys) == p.transactionId;
  }

  /** Any write of recovery, performed at any time, leaves the store it leads to unchanged. */
  lemma WriteAbsorbed(d: Disk, o: WriteOptions, p: WalPrepare, w: Write, r: TransactionRecord)
    requires r == PublishedRecord(d.transactions, p, None) && r.payload.transactionId == p.transactionId
    requires forall k | k in d.transactions :: k <= p.transactionId
    requires RecoveryWrite(w, o, p, r)
    ensures SameStore(Recovered(d, o, p), Recovered(Apply(d, w), o, p))
    ensures PublishedRecord(Apply(d, w).transactions, p, None) == r
    ensures forall k | k in Apply(d, w).transactions :: k <= p.transactionId
  {
    if w in ObjectWrites(p.envelope, p.transactionId, p.envelope.nodes.Keys, o.format) {
      RecordWriteAbsorbed(d.records, o, p, w);
    } else if w == PutTransaction(r) {
      LogWriteAbsorbed(d, o, p, r);
    }
  }

  lemma LogWriteAbsorbed(d: Disk, o: WriteOptions, p: WalPrepare, r: TransactionRecord)
    requires r == PublishedRecord(d.transactions, p, None) && r.payload.transactionId == p.transactionId
    requires forall k | k in d.transactions :: k <= p.transactionId
    ensures SameStore(Recovered(d, o, p), Recovered(Apply(d, PutTransaction(r)), o, p))
    ensures PublishedRecord(Apply(d, PutTransaction(r)).transactions, p, None) == r
  {
    RecordSettled(d.transactions, p, r);
    assert d.transactions[p.transactionId := r][p.transactionId := r] == d.transactions[p.transactionId := r];
  }

  lemma {:induction false} WritesAbsorbed(d: Disk, o: WriteOptions, p: WalPrepare, ws: seq<Write>, r: TransactionRecord)
    requires r == PublishedRecord(d.transactions, p, None) && r.payload.transactionId == p.transactionId
    requires forall k | k in d.transactions :: k <= p.transactionId
    requires forall i | 0 <= i < |ws| :: RecoveryWrite(ws[i], o, p, r)
    ensures SameStore(Recovered(d, o, p), Recovered(ApplyAll(d, ws), o, p))
    decreases |ws|
  {
    if ws != [] {
      WriteAbsorbed(d, o, p, ws[0], r);
      WritesAbsorbed(Apply(d, ws[0]), o, p, ws[1..], r);
    }
  }

  lemma {:induction false} WithoutManifest(d: Disk, ws: seq<Write>)
    requires forall i | 0 <= i < |ws| :: !ws[i].PutManifest?
    ensures ApplyAll(d, ws).manifest == d.manifest
    decreases |ws|
  {
    if ws != [] {
      WithoutManifest(Apply(d, ws[0]), ws[1..]);
    }
  }

  /** Recovery without its last write, the manifest. */
  ghost function PendingBody(d: Disk, o: WriteOptions, p: WalPrepare, order: WorkerOrder): seq<Write> {
    var r := PublishedRecord(d.transactions, p, None);
    RestoreWrites(o, p, order) + LogWrites(d.transactions, r) +
    [PutDerived(ParentIndex, p.transactionId), PutDerived(ConstraintRecord, p.transactionId),
     PutDerived(PersistentIndex, p.transactionId)] +
    CurrentWrites(o, p)
  }

  ghost function LastWrite(d: Disk, p: WalPrepare): Write {
    PutManifest(ManifestOf(p, UniformVersions(p.envelope, p.transactionId),
                           PublishedRecord(d.transactions, p, None).transactionHash))
  }

  lemma LogBound(d: Disk, h: History, o: WriteOptions)
    requires Inv(d, h, o) && h != []
    ensures var p := h[|h| - 1];
            && p.transactionId == |h| && p.snapshotFile == |h| && p.objectIds == p.envelope.nodes.Keys
            && PublishedRecord(d.transactions, p, None).payload.transactionId == p.transactionId
            && forall k | k in d.transactions :: k <= p.transactionId
  {
    assert ValidPrepare(h[|h| - 1], |h|) by { InvParts(d, h, o); }
    LogStage(d, h, o, None);
    InvParts(d, h, o);
  }

  lemma PublishShape(d: Disk, h: History, o: WriteOptions, versions: map<ObjectId, nat>)
    requires Inv(d, h, o) && h != []
    ensures var p := h[|h| - 1];
            var r := PublishedRecord(d.transactions, p, None);
            PublishPlan(d.transactions, o, p, versions, None) ==
              LogWrites(d.transactions, r) +
              [PutDerived(ParentIndex, |h|), PutDerived(ConstraintRecord, |h|), PutDerived(PersistentIndex, |h|)] +
              CurrentWrites(o, p) + [PutManifest(ManifestOf(p, versions, r.transactionHash))]
  {
    assert ValidHistory(h) && LogInv(d.transactions, h) by { InvParts(d, h, o); }
    PublishPlanShape(d.transactions, h, o, versions, None);
  }

  lemma RestoreKeepsLog(d: Disk, h: History, o: WriteOptions, order: WorkerOrder)
    requires Inv(d, h, o) && !Quiescent(d, h) && h != [] && Interleaves(order)
    ensures ApplyAll(d, RestoreWrites(o, h[|h| - 1], order)).transactions == d.transactions
  {
    RestoreSafe(d, h, o, order);
  }

  lemma PendingShape(d: Disk, h: History, o: WriteOptions, order: WorkerOrder)
    requires Inv(d, h, o) && !Quiescent(d, h) && h != [] && Interleaves(order)
    ensures var p := h[|h| - 1];
            RecoveryWrites(d, o, order) == PendingBody(d, o, p, order) + [LastWrite(d, p)]
  {
    var p := h[|h| - 1];
    LogBound(d, h, o);
    RecoveryIsPending(d, h, o, order);
    RestoreKeepsLog(d, h, o, order);
    PublishShape(d, h, o, UniformVersions(p.envelope, p.transactionId));
  }

  lemma BodyWrites(d: Disk, o: WriteOptions, p: WalPrepare, order: WorkerOrder)
    requires Interleaves(order) && p.objectIds == p.envelope.nodes.Keys
    ensures forall w | w in PendingBody(d, o, p, order) ::
              !w.PutManifest? && RecoveryWrite(w, o, p, PublishedRecord(d.transactions, p, None))
  {
    forall w | w in PendingBody(d, o, p, order)
      ensures !w.PutManifest? && RecoveryWrite(w, o, p, PublishedRecord(d.transactions, p, None))
    {
      assert w in RestoreWrites(o, p, order) ==>
          w in ObjectWrites(p.envelope, p.transactionId, p.envelope.nodes.Keys, o.format) ||
          (w == PutSnapshot(p.snapshotFile, p.envelope) && o.writeSnapshots);
    }
  }

  /** A recovery cut anywhere short of its last write still leads to the same store. */
  lemma CutKeepsTarget(d: Disk, h: History, o: WriteOptions, order: WorkerOrder, k: nat)
    requires Inv(d, h, o) && !Quiescent(d, h) && h != [] && Interleaves(order)
    requires k < |RecoveryWrites(d, o, order)|
    ensures var d1 := ApplyAll(d, Cut(RecoveryWrites(d, o, order), k));
            && Inv(d1, h, o) && !Quiescent(d1, h)
            && SameStore(Recovered(d, o, h[|h| - 1]), Recovered(d1, o, h[|h| - 1]))
  {
    var p := h[|h| - 1];
    var ws := RecoveryWrites(d, o, order);
    RecoverySafe(d, h, o, order);
    CutSafe(d, ws, k, h, o);
    PendingShape(d, h, o, order);
    var body := PendingBody(d, o, p, order);
    assert Cut(ws, k) == body[..k];
    LogBound(d, h, o);
    BodyWrites(d, o, p, order);
    assert forall i | 0 <= i < k :: body[i] in body;
    WithoutManifest(d, body[..k]);
    WritesAbsorbed(d, o, p, body[..k], PublishedRecord(d.transactions, p, None));
  }

  lemma RestoredRecords(d: Disk, p: WalPrepare, o: WriteOptions, order: WorkerOrder)
    requires Interleaves(order)
    ensures var rs := ApplyAll(d, order(ObjectWrites(p.envelope, p.transactionId, p.envelope.nodes.Keys,
                                                     o.format))).records;
            WithRecords(rs, p.envelope, p.transactionId, o.format) == rs
  {
    var n := p.transactionId;
    var writes := ObjectWrites(p.envelope, n, p.envelope.nodes.Keys, o.format);
    var rs := ApplyAll(d, order(writes)).records;
    forall id | id in p.envelope.nodes
      ensures !o.format.JsonOnly? ==>
                RecordKey(id, n) in rs.binary && rs.binary[RecordKey(id, n)] == RecordOf(p.envelope, n, id)
      ensures !o.format.BinaryOnly? ==>
                RecordKey(id, n) in rs.json && rs.json[RecordKey(id, n)] == RecordOf(p.envelope, n, id)
    {
      var r := RecordOf(p.envelope, n, id);
      assert !o.format.JsonOnly? ==> PutBinary(r) in writes;
      assert !o.format.BinaryOnly? ==> PutJson(r) in writes;
      RecordWritten(d, order(writes), r);
    }
    assert !o.format.JsonOnly? ==> rs.binary + AllRecords(p.envelope, n) == rs.binary;
    assert !o.format.BinaryOnly? ==> rs.json + AllRecords(p.envelope, n) == rs.json;
  }

  lemma RestoredExactly(d: Disk, p: WalPrepare, o: WriteOptions, order: WorkerOrder)
    requires Interleaves(order) && p.objectIds == p.envelope.nodes.Keys
    ensures ApplyAll(d, RestoreWrites(o, p, order)).records ==
            WithRecords(d.records, p.envelope, p.transactionId, o.format)
  {
    var ws := order(ObjectWrites(p.envelope, p.transactionId, p.objectIds, o.format));
    RestoredRecords(d, p, o, order);
    RecordsAnyOrder(d, o, p, ws);
    var snapshot := if o.writeSnapshots then [PutSnapshot(p.snapshotFile, p.envelope)] else [];
    ApplyAllConcat(d, ws, snapshot);
    assert o.writeSnapshots ==> snapshot[1..] == [];
  }

  /** The restoring half of a recovery. */
  lemma RecoveryRestores(d: Disk, h: History, o: WriteOptions, order: WorkerOrder)
    requires Inv(d, h, o) && !Quiescent(d, h) && h != [] && Interleaves(order)
    ensures var p := h[|h| - 1];
            ApplyAll(d, RestoreWrites(o, p, order)) ==
            d.(records := WithRecords(d.records, p.envelope, p.transactionId, o.format),
               snapshots := if o.writeSnapshots then d.snapshots[p.snapshotFile := p.envelope] else d.snapshots)
  {
    LogBound(d, h, o);
    RestoreSafe(d, h, o, order);
    RestoredExactly(d, h[|h| - 1], o, order);
  }

  /** The publication half of a recovery. */
  lemma RecoveryPublishes(d: Disk, h: History, o: WriteOptions, order: WorkerOrder)
    requires Inv(d, h, o) && !Quiescent(d, h) && h != [] && Interleaves(order)
    ensures var p := h[|h| - 1];
            var d1 := ApplyAll(d, RestoreWrites(o, p, order));
            var versions := UniformVersions(p.envelope, p.transactionId);
            PublishedAs(d1, ApplyAll(d1, PublishPlan(d1.transactions, o, p, versions, None)), o, p, versions,
                        PublishedRecord(d1.transactions, p, None))
  {
    var p := h[|h| - 1];
    LogBound(d, h, o);
    RestoreSafe(d, h, o, order);
    var d1 := ApplyAll(d, RestoreWrites(o, p, order));
    var versions := UniformVersions(p.envelope, p.transactionId);
    assert VersionsInv(d1.records, h, p, versions);
    PublishSafe(d1, h, o, versions, None);
  }

  /** An uninterrupted recovery ends in the store `Recovered` describes. */
  lemma FullRecovery(d: Disk, h: History, o: WriteOptions, order: WorkerOrder)
    requires Inv(d, h, o) && !Quiescent(d, h) && h != [] && Interleaves(order)
    ensures SameStore(ApplyAll(d, RecoveryWrites(d, o, order)), Recovered(d, o, h[|h| - 1]))
  {
    var p := h[|h| - 1];
    var first := RestoreWrites(o, p, order);
    RecoveryIsPending(d, h, o, order);
    LogBound(d, h, o);
    RecoveryRestores(d, h, o, order);
    RecoveryPublishes(d, h, o, order);
    var d1 := ApplyAll(d, first);
    var publish := PublishPlan(d1.transactions, o, p, UniformVersions(p.envelope, p.transactionId), None);
    ApplyAllConcat(d, first, publish);
    RecoveredAs(d, d1, ApplyAll(d1, publish), o, p);
  }

  lemma RecoveredAs(d: Disk, d1: Disk, d': Disk, o: WriteOptions, p: WalPrepare)
    requires d1 == d.(records := WithRecords(d.records, p.envelope, p.transactionId, o.format),
                      snapshots := if o.writeSnapshots then d.snapshots[p.snapshotFile := p.envelope] else d.snapshots)
    requires PublishedRecord(d.transactions, p, None).payload.transactionId == p.transactionId
    requires PublishedAs(d1, d', o, p, UniformVersions(p.envelope, p.transactionId),
                         PublishedRecord(d1.transactions, p, None))
    ensures SameStore(d', Recovered(d, o, p))
  {
  }

  /** The order in which the workers finish does not matter. */
  lemma {:induction false} RecordsAnyOrder(d: Disk, o: WriteOptions, p: WalPrepare, ws: seq<Write>)
    requires forall w | w in ws :: w in ObjectWrites(p.envelope, p.transactionId, p.envelope.nodes.Keys, o.format)
    ensures WithRecords(ApplyAll(d, ws).records, p.envelope, p.transactionId, o.format) ==
            WithRecords(d.records, p.envelope, p.transactionId, o.format)
    decreases |ws|
  {
    if ws != [] {
      assert ws[0] in ObjectWrites(p.envelope, p.transactionId, p.envelope.nodes.Keys, o.format);
      RecordWriteAbsorbed(d.records, o, p, ws[0]);
      RecordsAnyOrder(Apply(d, ws[0]), o, p, ws[1..]);
    }
  }

  /** A recovery attempt that is cut after so many writes, with the order in which its record workers finish. */
  datatype Attempt = Attempt(order: WorkerOrder, cut: nat)

  /** Recovery attempts, and a last one that runs to its end. */
  ghost function RecoverAfter(d: Disk, o: WriteOptions, attempts: seq<Attempt>, last: WorkerOrder): Disk
    decreases |attempts|
  {
    if attempts == [] then ApplyAll(d, RecoveryWrites(d, o, last))
    else
      var first := attempts[0];
      RecoverAfter(ApplyAll(d, Cut(RecoveryWrites(d, o, first.order), first.cut)), o, attempts[1..], last)
  }

  /** Interrupting recovery any number of times changes nothing about where it ends, whatever order the workers take. */
  lemma {:induction false} RecoveryIdempotent(d: Disk, h: History, o: WriteOptions, attempts: seq<Attempt>,
                                              last: WorkerOrder, order: WorkerOrder)
    requires Inv(d, h, o) && Interleaves(last) && Interleaves(order) && forall a | a in attempts :: Interleaves(a.order)
    ensures SameStore(RecoverAfter(d, o, attempts, last), ApplyAll(d, RecoveryWrites(d, o, order)))
    decreases |attempts|
  {
    if attempts == [] {
      AnyOrder(d, h, o, last, order);
    } else {
      var first := attempts[0];
      assert first in attempts && forall a | a in attempts[1..] :: a in attempts;
      var ws := RecoveryWrites(d, o, first.order);
      var d1 := ApplyAll(d, Cut(ws, first.cut));
      RecoverySafe(d, h, o, first.order);
      CutSafe(d, ws, first.cut, h, o);
      RecoveryIdempotent(d1, h, o, attempts[1..], last, order);
      OneAttempt(d, h, o, first, order);
    }
  }

  /** After one attempt, cut or not, recovery ends where it would have ended without it. */
  lemma OneAttempt(d: Disk, h: History, o: WriteOptions, a: Attempt, order: WorkerOrder)
    requires Inv(d, h, o) && Interleaves(a.order) && Interleaves(order)
    ensures var d1 := ApplyAll(d, Cut(RecoveryWrites(d, o, a.order), a.cut));
            SameStore(ApplyAll(d1, RecoveryWrites(d1, o, order)), ApplyAll(d, RecoveryWrites(d, o, order)))
  {
    var ws := RecoveryWrites(d, o, a.order);
    var d1 := ApplyAll(d, Cut(ws, a.cut));
    RecoverySafe(d, h, o, a.order);
    CutSafe(d, ws, a.cut, h, o);
    RecoveryIsPending(d, h, o, a.order);
    RecoveryIsPending(d, h, o, order);
    if a.cut >= |ws| {
      RecoveryIsPending(d1, h, o, order);
      assert Cut(ws, a.cut) == ws;
      AnyOrder(d, h, o, a.order, order);
    } else {
      CutKeepsTarget(d, h, o, a.order, a.cut);
      FullRecovery(d, h, o, order);
      FullRecovery(d1, h, o, order);
    }
  }

  /** Two uninterrupted recoveries end in the same store. */
  lemma AnyOrder(d: Disk, h: History, o: WriteOptions, order: WorkerOrder, order': WorkerOrder)
    requires Inv(d, h, o) && Interleaves(order) && Interleaves(order')
    ensures SameStore(ApplyAll(d, RecoveryWrites(d, o, order)), ApplyAll(d, RecoveryWrites(d, o, order')))
  {
    RecoveryIsPending(d, h, o, order);
    RecoveryIsPending(d, h, o, order');
    if !Quiescent(d, h) && h != [] {
      FullRecovery(d, h, o, order);
      FullRecovery(d, h, o, order');
    }
  }
}
