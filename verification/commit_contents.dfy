/** What every commit leaves on disk is what it was asked for. */
module CommitContents {
  // The crash theorems speak of the prepared records; here these are compared, field by field, with the requests.

  import opened EncodedGraph
  import opened StorageDisk
  import opened CommitPlan
  import opened CrashInvariant
  import opened RecoverySafety
  import opened CrashRuns

  ghost predicate PreparedAsked(p: WalPrepare, n: nat, req: CommitRequest) {
    && p.transactionId == n && p.snapshotFile == n
    && p.envelope == req.envelope && p.objectIds == req.envelope.nodes.Keys
    && p.mode == req.mode && p.targetCount == req.targetCount && p.schemaVersion == req.schemaVersion
  }

  ghost predicate MarkerAsked(c: WalCommit, n: nat, req: CommitRequest) {
    c.transactionId == n && c.prepareFile == n && c.schemaVersion == req.schemaVersion
  }

  /** Recovery has no metadata to restore; a commit that was not cut short has written its own. */
  ghost predicate LoggedAsked(t: TransactionRecord, n: nat, req: CommitRequest) {
    && t.payload.transactionId == n && t.payload.snapshotFile == n
    && t.payload.objectIds == req.envelope.nodes.Keys && t.payload.envelopeHash == EnvelopeDigest(req.envelope)
    && t.payload.mode == req.mode && t.payload.targetCount == req.targetCount
    && t.payload.schemaVersion == req.schemaVersion
    && (t.payload.metadata == req.metadata || t.payload.metadata == None)
  }

  ghost predicate ManifestAsked(m: Manifest, n: nat, req: CommitRequest) {
    && m.transactionId == n && m.root == req.envelope.root && m.objectIds == req.envelope.nodes.Keys
    && m.schemaVersion == req.schemaVersion
  }

  ghost predicate Asked(h: History, reqs: seq<CommitRequest>) {
    |h| == |reqs| && forall i | 0 <= i < |h| :: PreparedAsked(h[i], i + 1, reqs[i])
  }

  ghost predicate MetadataAsked(log: Log, reqs: seq<CommitRequest>) {
    forall n | n in log && 1 <= n <= |reqs| :: log[n].payload.metadata in {reqs[n - 1].metadata, None}
  }

  /** The session of an empty store is at the application's schema version, otherwise at that of the last request. */
  ghost predicate SchemaAsked(s: Session, st: Store, reqs: seq<CommitRequest>) {
    s.schemaVersion == if reqs == [] then st.targetSchema else reqs[|reqs| - 1].schemaVersion
  }

  ghost predicate ContentInv(w: World, st: Store) {
    && Asked(w.history, w.requests) && MetadataAsked(w.disk.transactions, w.requests)
    && (w.session.Some? ==> SchemaAsked(w.session.value, st, w.requests))
  }

  // The log after some writes.

  ghost predicate LogsOnly(ws: seq<Write>, n: nat, metadata: Option<string>) {
    forall w | w in ws && w.PutTransaction? ::
      w.transaction.payload.transactionId == n && w.transaction.payload.metadata == metadata
  }

  /** Apart from the record of `n` the log is as before; that record, if there, has this metadata or was there. */
  ghost predicate LogMoves(log: Log, log': Log, n: nat, metadata: Option<string>) {
    && (forall k | k != n :: k in log' <==> k in log) && (forall k | k != n && k in log :: log'[k] == log[k])
    && (n in log ==> n in log')
    && (n in log' ==> log'[n].payload.metadata == metadata || (n in log && log'[n] == log[n]))
  }

  lemma LogByOne(d: Disk, w: Write, n: nat, metadata: Option<string>)
    requires w.PutTransaction? ==>
               w.transaction.payload.transactionId == n && w.transaction.payload.metadata == metadata
    ensures LogMoves(d.transactions, Apply(d, w).transactions, n, metadata)
  {
  }

  lemma {:induction false} LogAfter(d: Disk, ws: seq<Write>, n: nat, metadata: Option<string>)
    requires LogsOnly(ws, n, metadata)
    ensures LogMoves(d.transactions, ApplyAll(d, ws).transactions, n, metadata)
    decreases |ws|
  {
    if ws != [] {
      assert ws[0] in ws && forall w | w in ws[1..] :: w in ws;
      LogByOne(d, ws[0], n, metadata);
      LogAfter(Apply(d, ws[0]), ws[1..], n, metadata);
    }
  }

  lemma PublishLogs(log: Log, o: WriteOptions, p: WalPrepare, versions: map<ObjectId, nat>, metadata: Option<string>)
    ensures LogsOnly(PublishPlan(log, o, p, versions, metadata), p.transactionId, metadata)
  {
  }

  lemma BeforeMarkerLogsNothing(o: WriteOptions, s: Session, req: CommitRequest, order: WorkerOrder)
    requires Interleaves(order)
    ensures forall w | w in ThroughMarker(o, s, req, order) :: !w.PutTransaction?
  {
    var ids := ObjectIdsToWrite(s.objectVersions, req.envelope.nodes.Keys, req.objectIds);
    var ws := ObjectWrites(req.envelope, s.transactionId + 1, ids, o.format);
    forall w | w in ThroughMarker(o, s, req, order) ensures !w.PutTransaction? {
      assert w in order(ws) ==> w in ws;
    }
  }

  lemma CommitLogs(d: Disk, o: WriteOptions, s: Session, req: CommitRequest, order: WorkerOrder)
    requires Interleaves(order)
    ensures LogsOnly(CommitWrites(d, o, s, req, order), s.transactionId + 1, req.metadata)
  {
    BeforeMarkerLogsNothing(o, s, req, order);
    PublishLogs(ApplyAll(d, ThroughMarker(o, s, req, order)).transactions, o, PrepareOf(s.transactionId + 1, req),
                VersionsAfter(s, req), req.metadata);
  }

  lemma RestoreLogsNothing(o: WriteOptions, p: WalPrepare, order: WorkerOrder)
    requires Interleaves(order)
    ensures forall w | w in RestoreWrites(o, p, order) :: !w.PutTransaction?
  {
    var ws := ObjectWrites(p.envelope, p.transactionId, p.objectIds, o.format);
    forall w | w in RestoreWrites(o, p, order) ensures !w.PutTransaction? {
      assert w in order(ws) ==> w in ws;
    }
  }

  lemma RecoveryLogs(d: Disk, h: History, o: WriteOptions, order: WorkerOrder)
    requires Inv(d, h, o) && Interleaves(order)
    ensures LogsOnly(RecoveryWrites(d, o, order), |h|, None)
  {
    RecoveryIsPending(d, h, o, order);
    if !Quiescent(d, h) && h != [] {
      var p := h[|h| - 1];
      assert p.transactionId == |h| by { InvParts(d, h, o); }
      RestoreLogsNothing(o, p, order);
      PublishLogs(ApplyAll(d, RestoreWrites(o, p, order)).transactions, o, p,
                  UniformVersions(p.envelope, p.transactionId),
                  None);
    }
  }

  lemma CutLogs(ws: seq<Write>, k: nat, n: nat, metadata: Option<string>)
    requires LogsOnly(ws, n, metadata)
    ensures LogsOnly(Cut(ws, k), n, metadata)
  {
    assert forall w | w in Cut(ws, k) :: w in ws;
  }

  // Every step of a run.

  ghost predicate LogGrows(log: Log, log': Log, n: nat, metadata: Option<string>) {
    && (forall k | k != n && k in log' :: k in log && log'[k] == log[k])
    && (n in log' ==> log'[n].payload.metadata == metadata || (n in log && log'[n] == log[n]))
  }

  lemma CutLogGrows(d: Disk, ws: seq<Write>, cut: Option<nat>, n: nat, metadata: Option<string>)
    requires LogsOnly(ws, n, metadata)
    ensures LogGrows(d.transactions, ApplyAll(d, if cut.Some? then Cut(ws, cut.value) else ws).transactions, n,
                     metadata)
  {
    if cut.Some? {
      CutLogs(ws, cut.value, n, metadata);
      LogAfter(d, Cut(ws, cut.value), n, metadata);
    } else {
      LogAfter(d, ws, n, metadata);
    }
  }

  lemma AskedExtends(h: History, reqs: seq<CommitRequest>, req: CommitRequest)
    requires Asked(h, reqs)
    ensures Asked(h + [PrepareOf(|h| + 1, req)], reqs + [req])
  {
    var h', reqs' := h + [PrepareOf(|h| + 1, req)], reqs + [req];
    forall i | 0 <= i < |h'| ensures PreparedAsked(h'[i], i + 1, reqs'[i]) {
      if i < |h| {
        assert h'[i] == h[i] && reqs'[i] == reqs[i];
      }
    }
  }

  /** A record that is new carries the metadata of its request, or none. */
  lemma MetadataGrows(log: Log, log': Log, reqs: seq<CommitRequest>, more: seq<CommitRequest>, n: nat,
                      metadata: Option<string>)
    requires MetadataAsked(log, reqs) && LogGrows(log, log', n, metadata) && reqs <= more
    requires forall k | k in log :: k <= |reqs|
    requires 1 <= n <= |more| ==> metadata in {more[n - 1].metadata, None}
    ensures MetadataAsked(log', more)
  {
    forall k | k in log' && 1 <= k <= |more| ensures log'[k].payload.metadata in {more[k - 1].metadata, None} {
      assert k <= |reqs| ==> more[k - 1] == reqs[k - 1];
    }
  }

  lemma LogWithin(d: Disk, h: History, o: WriteOptions)
    requires Inv(d, h, o)
    ensures forall k | k in d.transactions :: k <= |h|
  {
    InvParts(d, h, o);
  }

  lemma StartKeepsContent(w: World, st: Store, order: WorkerOrder, cut: Option<nat>)
    requires WorldInv(w, st.options) && ContentInv(w, st) && Interleaves(order)
    ensures ContentInv(StartStep(w, st, order, cut), st)
  {
    var ws := RecoveryWrites(w.disk, st.options, order);
    RecoveryLogs(w.disk, w.history, st.options, order);
    CutLogGrows(w.disk, ws, cut, |w.history|, None);
    LogWithin(w.disk, w.history, st.options);
    MetadataGrows(w.disk.transactions, StartStep(w, st, order, cut).disk.transactions, w.requests, w.requests,
                  |w.history|, None);
    if cut.None? {
      RecoverySafe(w.disk, w.history, st.options, order);
      LoadAsAsked(ApplyAll(w.disk, ws), w.history, st.options, w.requests);
    }
  }

  lemma CommitLogGrows(w: World, st: Store, req: CommitRequest, order: WorkerOrder, cut: Option<nat>)
    requires WorldInv(w, st.options) && Legal(w, Commit(req, order, cut))
    ensures LogGrows(w.disk.transactions, CommitStep(w, st, req, order, cut).disk.transactions, |w.history| + 1,
                     req.metadata)
  {
    var s := w.session.value;
    CommitLogs(w.disk, st.options, s, req, order);
    CutLogGrows(w.disk, CommitWrites(w.disk, st.options, s, req, order), cut, |w.history| + 1, req.metadata);
  }

  lemma CommitKeepsContent(w: World, st: Store, req: CommitRequest, order: WorkerOrder, cut: Option<nat>)
    requires WorldInv(w, st.options) && ContentInv(w, st) && Legal(w, Commit(req, order, cut))
    ensures ContentInv(CommitStep(w, st, req, order, cut), st)
  {
    var n, w' := |w.history| + 1, CommitStep(w, st, req, order, cut);
    CommitLogGrows(w, st, req, order, cut);
    LogWithin(w.disk, w.history, st.options);
    AskedExtends(w.history, w.requests, req);
    MetadataGrows(w.disk.transactions, w'.disk.transactions, w.requests, w'.requests, n, req.metadata);
  }

  /** A commit that is not cut short has logged its metadata. */
  lemma WholeCommitLogsMetadata(w: World, st: Store, req: CommitRequest, order: WorkerOrder)
    requires WorldInv(w, st.options) && Legal(w, Commit(req, order, None))
    ensures var log := CommitStep(w, st, req, order, None).disk.transactions;
            |w.history| + 1 in log && log[|w.history| + 1].payload.metadata == req.metadata
  {
    var w' := CommitStep(w, st, req, order, None);
    CommitLogGrows(w, st, req, order, None);
    LogWithin(w.disk, w.history, st.options);
    CommitKeepsInv(w, st, req, order, None);
    LogComplete(w'.disk, w'.history, st.options);
  }

  // Files written besides.

  ghost predicate DerivedMoves(before: map<DerivedFile, nat>, after: map<DerivedFile, nat>, f: DerivedFile, n: nat,
                               written: bool) {
    if written then f in after && after[f] == n
    else (f in after <==> f in before) && (f in after ==> after[f] == before[f])
  }

  lemma DerivedByOne(d: Disk, w: Write, f: DerivedFile, n: nat)
    requires forall k | k != n :: w != PutDerived(f, k)
    ensures DerivedMoves(d.derived, Apply(d, w).derived, f, n, w == PutDerived(f, n))
  {
    if w.PutDerived? && w.derivedFile == f {
      assert w == PutDerived(f, w.transactionId);
    }
  }

  /** A derived file holds the number written to it, if any was. */
  lemma {:induction false} DerivedAfter(d: Disk, ws: seq<Write>, f: DerivedFile, n: nat)
    requires forall k | k != n :: PutDerived(f, k) !in ws
    ensures DerivedMoves(d.derived, ApplyAll(d, ws).derived, f, n, PutDerived(f, n) in ws)
    decreases |ws|
  {
    if ws != [] {
      assert forall w :: w in ws <==> w == ws[0] || w in ws[1..];
      DerivedByOne(d, ws[0], f, n);
      DerivedAfter(Apply(d, ws[0]), ws[1..], f, n);
    }
  }

  lemma DerivedOfCommit(d: Disk, o: WriteOptions, s: Session, req: CommitRequest, order: WorkerOrder, f: DerivedFile,
                        k: nat)
    requires Interleaves(order) && LatestTransactionId(d.transactions) <= s.transactionId
    ensures PutDerived(f, k) in CommitWrites(d, o, s, req, order) <==>
            k == s.transactionId + 1 && (f.TypeDictionary? ==> req.typesChanged)
  {
    var w, p, first := PutDerived(f, k), PrepareOf(s.transactionId + 1, req), ThroughMarker(o, s, req, order);
    var ws := ObjectWrites(req.envelope, s.transactionId + 1,
                           ObjectIdsToWrite(s.objectVersions, req.envelope.nodes.Keys, req.objectIds), o.format);
    assert w !in order(ws) by {
      assert w in order(ws) <==> w in ws;
    }
    assert w in first <==> f.TypeDictionary? && req.typesChanged && k == s.transactionId + 1;
    BeforeMarkerLogsNothing(o, s, req, order);
    SameLog(d, first);
    assert w in PublishPart(d, o, s, req, order) <==> !f.TypeDictionary? && k == s.transactionId + 1;
  }

  lemma {:induction false} SameLog(d: Disk, ws: seq<Write>)
    requires forall w | w in ws :: !w.PutTransaction?
    ensures ApplyAll(d, ws).transactions == d.transactions
    decreases |ws|
  {
    if ws != [] {
      assert ws[0] in ws && forall w | w in ws[1..] :: w in ws;
      SameLog(Apply(d, ws[0]), ws[1..]);
    }
  }

  /** A whole commit leaves its number in every derived file; the type dictionary is written when types changed. */
  lemma WholeCommitDerives(d: Disk, o: WriteOptions, s: Session, req: CommitRequest, order: WorkerOrder, f: DerivedFile)
    requires Interleaves(order) && LatestTransactionId(d.transactions) <= s.transactionId
    ensures var derived := ApplyAll(d, CommitWrites(d, o, s, req, order)).derived;
            if f.TypeDictionary? && !req.typesChanged then
              (f in derived <==> f in d.derived) && (f in derived ==> derived[f] == d.derived[f])
            else f in derived && derived[f] == s.transactionId + 1
  {
    forall k ensures PutDerived(f, k) in CommitWrites(d, o, s, req, order) <==>
            k == s.transactionId + 1 && (f.TypeDictionary? ==> req.typesChanged) {
      DerivedOfCommit(d, o, s, req, order, f, k);
    }
    DerivedAfter(d, CommitWrites(d, o, s, req, order), f, s.transactionId + 1);
  }

  lemma LogComplete(d: Disk, h: History, o: WriteOptions)
    requires Inv(d, h, o)
    ensures forall n | 1 <= n <= |h| && (n < |h| || Quiescent(d, h)) :: n in d.transactions
  {
    InvParts(d, h, o);
  }

  lemma StepKeepsContent(w: World, st: Store, a: Action)
    requires WorldInv(w, st.options) && ContentInv(w, st) && Legal(w, a)
    ensures ContentInv(Step(w, st, a), st)
  {
    match a
    case Start(order, cut) => StartKeepsContent(w, st, order, cut);
    case Commit(req, order, cut) => CommitKeepsContent(w, st, req, order, cut);
    case Stop =>
  }

  lemma {:induction false} RunKeepsContent(w: World, st: Store, run: seq<Action>)
    requires WorldInv(w, st.options) && ContentInv(w, st) && LegalRun(w, st, run)
    ensures WorldInv(Run(w, st, run), st.options) && ContentInv(Run(w, st, run), st)
    decreases |run|
  {
    if run != [] {
      StepKeepsInv(w, st, run[0]);
      StepKeepsContent(w, st, run[0]);
      RunKeepsContent(Step(w, st, run[0]), st, run[1..]);
    }
  }

  /** The files of transaction `n`; its log record is there once the transaction is published. */
  ghost predicate OnDiskAsAsked(d: Disk, n: nat, req: CommitRequest) {
    && n in d.prepares && PreparedAsked(d.prepares[n], n, req)
    && n in d.commits && MarkerAsked(d.commits[n], n, req)
    && (n in d.transactions ==> LoggedAsked(d.transactions[n], n, req))
    && (n in d.snapshots ==> d.snapshots[n] == req.envelope)
    && (d.manifest.Some? && d.manifest.value.transactionId == n ==>
          n in d.transactions && ManifestAsked(d.manifest.value, n, req))
  }

  lemma WalAsAsked(d: Disk, h: History, o: WriteOptions, reqs: seq<CommitRequest>, n: nat)
    requires Inv(d, h, o) && Asked(h, reqs) && 1 <= n <= |h|
    ensures n in d.prepares && PreparedAsked(d.prepares[n], n, reqs[n - 1])
    ensures n in d.commits && MarkerAsked(d.commits[n], n, reqs[n - 1])
    ensures n in d.snapshots ==> d.snapshots[n] == reqs[n - 1].envelope
  {
    InvParts(d, h, o);
    assert PreparedAsked(h[n - 1], n, reqs[n - 1]);
  }

  lemma LogAsAsked(d: Disk, h: History, o: WriteOptions, reqs: seq<CommitRequest>, n: nat)
    requires Inv(d, h, o) && Asked(h, reqs) && MetadataAsked(d.transactions, reqs) && 1 <= n <= |h|
    ensures n in d.transactions ==> LoggedAsked(d.transactions[n], n, reqs[n - 1])
  {
    InvParts(d, h, o);
    assert PreparedAsked(h[n - 1], n, reqs[n - 1]);
    if n in d.transactions {
      assert RecordFor(d.transactions[n], h[n - 1]);
    }
  }

  lemma ManifestAsAsked(d: Disk, h: History, o: WriteOptions, reqs: seq<CommitRequest>, n: nat)
    requires Inv(d, h, o) && Asked(h, reqs) && 1 <= n <= |h|
    requires d.manifest.Some? && d.manifest.value.transactionId == n
    ensures n in d.transactions && ManifestAsked(d.manifest.value, n, reqs[n - 1])
  {
    InvParts(d, h, o);
    assert PreparedAsked(h[n - 1], n, reqs[n - 1]);
  }

  lemma DiskAsAsked(d: Disk, h: History, o: WriteOptions, reqs: seq<CommitRequest>, n: nat)
    requires Inv(d, h, o) && Asked(h, reqs) && MetadataAsked(d.transactions, reqs) && 1 <= n <= |h|
    ensures OnDiskAsAsked(d, n, reqs[n - 1])
  {
    WalAsAsked(d, h, o, reqs, n);
    LogAsAsked(d, h, o, reqs, n);
    if d.manifest.Some? && d.manifest.value.transactionId == n {
      ManifestAsAsked(d, h, o, reqs, n);
    }
  }

  ghost predicate LoadsAsked(l: Loaded, reqs: seq<CommitRequest>) {
    if reqs == [] then l == Empty
    else
      var last := reqs[|reqs| - 1];
      && l.Loaded? && l.envelope == last.envelope
      && l.session.transactionId == |reqs| && l.session.schemaVersion == last.schemaVersion
  }

  lemma LoadAsAsked(d: Disk, h: History, o: WriteOptions, reqs: seq<CommitRequest>)
    requires Inv(d, h, o) && Asked(h, reqs)
    ensures LoadsAsked(Load(d), reqs)
  {
    LoadExact(d, h, o);
    assert h != [] ==> PreparedAsked(h[|h| - 1], |h|, reqs[|h| - 1]);
  }

  /**
   * In every reachable state the committed transactions are those of the requests, and each is on disk as its request
   * asked: WAL record, marker, snapshot, log record and manifest. Loading, now or after the next recovery, gives
   * envelope and schema version of the last request; a running session is at its number and schema version.
   */
  lemma CommittedAsAsked(st: Store, run: seq<Action>, next: WorkerOrder)
    requires LegalRun(EMPTY_WORLD, st, run) && Interleaves(next)
    ensures var w := Run(EMPTY_WORLD, st, run);
            && (forall n :: n in w.disk.commits <==> 1 <= n <= |w.requests|)
            && (forall i | 0 <= i < |w.requests| :: OnDiskAsAsked(w.disk, i + 1, w.requests[i]))
            && (w.session.Some? ==> PublishedId(w.disk.manifest) == w.session.value.transactionId == |w.requests| &&
                                    SchemaAsked(w.session.value, st, w.requests))
            && LoadsAsked(Load(w.disk), w.requests)
            && LoadsAsked(Load(ApplyAll(w.disk, RecoveryWrites(w.disk, st.options, next))), w.requests)
  {
    EmptyDiskInv(st.options);
    RunKeepsContent(EMPTY_WORLD, st, run);
    var w := Run(EMPTY_WORLD, st, run);
    MarkersAreHistory(w.disk, w.history, st.options);
    forall i | 0 <= i < |w.requests| ensures OnDiskAsAsked(w.disk, i + 1, w.requests[i]) {
      DiskAsAsked(w.disk, w.history, st.options, w.requests, i + 1);
    }
    LoadAsAsked(w.disk, w.history, st.options, w.requests);
    RecoverySafe(w.disk, w.history, st.options, next);
    LoadAsAsked(ApplyAll(w.disk, RecoveryWrites(w.disk, st.options, next)), w.history, st.options, w.requests);
  }
}
