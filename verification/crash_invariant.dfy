/** The invariant of every disk the protocol can leave behind, and each write that keeps it. */
module CrashInvariant {
  // The invariant of every disk the protocol can leave behind, stated against the history of prepared records whose
  // WAL commit marker has been written, and its preservation by each single target write.

  import opened EncodedGraph
  import opened StorageDisk
  import opened CommitPlan
  import opened Folding

  type History = seq<WalPrepare>

  ghost predicate ValidPrepare(p: WalPrepare, n: nat) {
    p.transactionId == n && p.snapshotFile == n && p.objectIds == p.envelope.nodes.Keys
  }

  ghost predicate ValidHistory(h: History) {
    forall i | 0 <= i < |h| :: ValidPrepare(h[i], i + 1)
  }

  /** Commit markers are numbered without gaps and each names the record its client prepared. */
  ghost predicate WalInv(prepares: map<nat, WalPrepare>, commits: map<nat, WalCommit>, h: History) {
    && (forall n :: n in commits <==> 1 <= n <= |h|)
    && (forall n | 1 <= n <= |h| :: n in prepares && prepares[n] == h[n - 1])
    && (forall n | 1 <= n <= |h| :: commits[n] == MarkerOf(h[n - 1]))
  }

  ghost predicate RecordFor(t: TransactionRecord, p: WalPrepare) {
    && t.payload.transactionId == p.transactionId
    && t.payload.snapshotFile == p.snapshotFile
    && t.payload.objectIds == p.envelope.nodes.Keys
    && t.payload.mode == p.mode
    && t.payload.targetCount == p.targetCount
    && t.payload.envelopeHash == EnvelopeDigest(p.envelope)
    && t.payload.schemaVersion == p.schemaVersion
    && t.transactionHash == TransactionDigest(t.payload)
  }

  ghost function LogLength(log: Log): nat {
    Highest(log.Keys)
  }

  ghost predicate Chained(log: Log, n: nat) {
    n in log &&
    log[n].payload.previousHash == if n - 1 in log then Some(log[n - 1].transactionHash) else None
  }

  /** The transaction log is a gap-free hash chain over the history, at most one record short of it. */
  ghost predicate LogInv(log: Log, h: History) {
    && |h| - 1 <= LogLength(log) <= |h|
    && (forall n :: n in log <==> 1 <= n <= LogLength(log))
    && (forall n | 1 <= n <= LogLength(log) :: RecordFor(log[n], h[n - 1]))
    && (forall n {:trigger Chained(log, n)} | 1 <= n <= LogLength(log) :: Chained(log, n))
  }

  /** `id` at `version` is readable and holds the node the commit numbered `version` gave it. */
  ghost predicate Recorded(rs: Records, h: History, id: ObjectId, version: nat, node: EncodedNode) {
    && 1 <= version <= |h|
    && id in h[version - 1].envelope.nodes
    && h[version - 1].envelope.nodes[id] == node
    && ReadObject(rs, id, version) == Some(ObjectRecord(id, version, node))
  }

  ghost predicate VersionsInv(rs: Records, h: History, p: WalPrepare, versions: map<ObjectId, nat>) {
    && versions.Keys == p.envelope.nodes.Keys
    && forall id | id in versions ::
      versions[id] <= p.transactionId && Recorded(rs, h, id, versions[id], p.envelope.nodes[id])
  }

  ghost predicate Describes(m: Manifest, p: WalPrepare, t: TransactionRecord) {
    m == ManifestOf(p, m.objectVersions, t.transactionHash)
  }

  /** The manifest is at most one transaction behind, never ahead of the log, and describes one history entry. */
  ghost predicate ManifestInv(manifest: Option<Manifest>, rs: Records, log: Log, h: History) {
    && |h| - 1 <= PublishedId(manifest) <= LogLength(log)
    && (manifest.Some? ==>
      var m := manifest.value;
      && 1 <= m.transactionId <= |h|
      && m.transactionId in log
      && Describes(m, h[m.transactionId - 1], log[m.transactionId])
      && VersionsInv(rs, h, h[m.transactionId - 1], m.objectVersions))
  }

  /** Snapshots of committed transactions hold their envelopes; CURRENT names one of them. */
  ghost predicate SnapshotInv(snapshots: map<nat, Envelope>, current: Option<nat>, h: History) {
    && (forall n | n in snapshots && 1 <= n <= |h| :: snapshots[n] == h[n - 1].envelope)
    && (current.Some? ==> 1 <= current.value <= |h| && current.value in snapshots)
  }

  /** A store written under one set of write options holds no leftover of another. */
  ghost predicate OptionsInv(d: Disk, o: WriteOptions) {
    && (o.format.JsonOnly? ==> d.records.binary == map[])
    && (!o.writeSnapshots ==> d.snapshots == map[])
  }

  ghost predicate Parts(d: Disk, h: History, o: WriteOptions) {
    && ValidHistory(h)
    && WalInv(d.prepares, d.commits, h)
    && LogInv(d.transactions, h)
    && ManifestInv(d.manifest, d.records, d.transactions, h)
    && SnapshotInv(d.snapshots, d.current, h)
    && OptionsInv(d, o)
  }

  ghost predicate Inv(d: Disk, h: History, o: WriteOptions) {
    forall u {:trigger Unfold(u)} | Unfold(u) :: Parts(d, h, o)
  }

  lemma InvParts(d: Disk, h: History, o: WriteOptions)
    requires Inv(d, h, o)
    ensures Parts(d, h, o)
  {
    assert Unfold(true);
  }

  /** Rewrites disk and history without unfolding the invariant. */
  lemma SameInv(d: Disk, h: History, d': Disk, h': History, o: WriteOptions)
    requires Inv(d, h, o) && d == d' && h == h'
    ensures Inv(d', h', o)
  {
  }

  /** Nothing is pending: the manifest names the last committed transaction. */
  ghost predicate Quiescent(d: Disk, h: History) {
    PublishedId(d.manifest) == |h|
  }

  lemma EmptyDiskInv(o: WriteOptions)
    ensures Inv(EMPTY_DISK, [], o) && Quiescent(EMPTY_DISK, [])
  {
  }

  lemma LatestIsLogEnd(log: Log, h: History)
    requires ValidHistory(h) && LogInv(log, h)
    ensures LogLength(log) == 0 ==> LatestTransaction(log) == None
    ensures LogLength(log) > 0 ==> LatestTransaction(log) == Some(log[LogLength(log)])
    ensures LatestTransactionId(log) == LogLength(log)
  {
    if LogLength(log) > 0 {
      assert RecordFor(log[LogLength(log)], h[LogLength(log) - 1]);
    }
  }

  lemma HighestIs(keys: set<nat>, n: nat)
    requires forall k :: k in keys <==> 1 <= k <= n
    ensures Highest(keys) == n
  {
    if n > 0 { assert n in keys; }
  }

  predicate IsObjectWrite(w: Write, n: nat) {
    (w.PutBinary? || w.PutJson?) && w.record.transactionId == n
  }

  predicate AllowedBy(w: Write, o: WriteOptions) {
    && (w.PutBinary? ==> !o.format.JsonOnly?)
    && (w.PutSnapshot? ==> o.writeSnapshots)
  }

  /** Preparing the next transaction changes nothing that is already committed. */
  lemma StepPrepare(d: Disk, h: History, o: WriteOptions, p: WalPrepare)
    requires Inv(d, h, o) && p.transactionId == |h| + 1
    ensures Inv(Apply(d, PutPrepare(p)), h, o)
  {
  }

  lemma RecordsFrame(rs: Records, rs': Records, h: History, p: WalPrepare, versions: map<ObjectId, nat>)
    requires VersionsInv(rs, h, p, versions)
    requires forall id: ObjectId, v: nat | v <= p.transactionId :: ReadObject(rs', id, v) == ReadObject(rs, id, v)
    ensures VersionsInv(rs', h, p, versions)
  {
    forall id | id in versions
      ensures Recorded(rs', h, id, versions[id], p.envelope.nodes[id])
    {
      assert Recorded(rs, h, id, versions[id], p.envelope.nodes[id]);
    }
  }

  lemma HistoryFrame(rs: Records, h: History, p: WalPrepare, versions: map<ObjectId, nat>, next: WalPrepare)
    requires VersionsInv(rs, h, p, versions)
    ensures VersionsInv(rs, h + [next], p, versions)
  {
    forall id | id in versions
      ensures Recorded(rs, h + [next], id, versions[id], p.envelope.nodes[id])
    {
      assert Recorded(rs, h, id, versions[id], p.envelope.nodes[id]);
      assert (h + [next])[versions[id] - 1] == h[versions[id] - 1];
    }
  }

  lemma OtherVersionsUnaffected(d: Disk, w: Write, n: nat)
    requires IsObjectWrite(w, n)
    ensures forall id: ObjectId, v: nat | v != n ::
            ReadObject(Apply(d, w).records, id, v) == ReadObject(d.records, id, v)
  {
  }

  lemma ManifestFrame(m: Option<Manifest>, rs: Records, rs': Records, log: Log, h: History, n: nat)
    requires ValidHistory(h) && ManifestInv(m, rs, log, h) && n > PublishedId(m)
    requires forall id: ObjectId, v: nat | v != n :: ReadObject(rs', id, v) == ReadObject(rs, id, v)
    ensures ManifestInv(m, rs', log, h)
  {
    if m.Some? {
      var p := h[m.value.transactionId - 1];
      assert ValidPrepare(p, m.value.transactionId);
      RecordsFrame(rs, rs', h, p, m.value.objectVersions);
    }
  }

  /** A record of a transaction the manifest has not reached is invisible. */
  lemma StepObject(d: Disk, h: History, o: WriteOptions, w: Write, n: nat)
    requires Inv(d, h, o) && IsObjectWrite(w, n) && AllowedBy(w, o) && n > PublishedId(d.manifest)
    ensures Inv(Apply(d, w), h, o) && Apply(d, w).manifest == d.manifest
  {
    InvParts(d, h, o);
    OtherVersionsUnaffected(d, w, n);
    ManifestFrame(d.manifest, d.records, Apply(d, w).records, d.transactions, h, n);
  }

  lemma StepDerived(d: Disk, h: History, o: WriteOptions, w: Write)
    requires Inv(d, h, o) && w.PutDerived?
    ensures Inv(Apply(d, w), h, o)
  {
  }

  lemma StepSnapshot(d: Disk, h: History, o: WriteOptions, w: Write)
    requires Inv(d, h, o) && w.PutSnapshot? && o.writeSnapshots
    requires 1 <= w.file <= |h| ==> w.envelope == h[w.file - 1].envelope
    ensures Inv(Apply(d, w), h, o)
  {
    InvParts(d, h, o);
    var d' := Apply(d, w);
    assert d' == d.(snapshots := d.snapshots[w.file := w.envelope]);
    assert SnapshotInv(d'.snapshots, d'.current, h);
  }

  lemma StepCurrent(d: Disk, h: History, o: WriteOptions, n: nat)
    requires Inv(d, h, o) && 1 <= n <= |h| && n in d.snapshots
    ensures Inv(Apply(d, PutCurrent(n)), h, o)
  {
  }

  lemma LogFrame(log: Log, h: History, p: WalPrepare)
    requires LogInv(log, h) && LogLength(log) == |h|
    ensures LogInv(log, h + [p])
  {
    forall n | 1 <= n <= LogLength(log) ensures RecordFor(log[n], (h + [p])[n - 1]) {
      assert (h + [p])[n - 1] == h[n - 1];
    }
  }

  lemma WalExtend(prepares: map<nat, WalPrepare>, commits: map<nat, WalCommit>, h: History, p: WalPrepare)
    requires WalInv(prepares, commits, h) && ValidHistory(h) && ValidPrepare(p, |h| + 1)
    requires |h| + 1 in prepares && prepares[|h| + 1] == p
    ensures WalInv(prepares, commits[|h| + 1 := MarkerOf(p)], h + [p]) && ValidHistory(h + [p])
  {
    forall n | 1 <= n <= |h| + 1
      ensures n in prepares && prepares[n] == (h + [p])[n - 1]
      ensures commits[|h| + 1 := MarkerOf(p)][n] == MarkerOf((h + [p])[n - 1])
    {
      assert n <= |h| ==> (h + [p])[n - 1] == h[n - 1];
    }
  }

  lemma ManifestExtend(m: Option<Manifest>, rs: Records, log: Log, h: History, p: WalPrepare)
    requires ManifestInv(m, rs, log, h) && PublishedId(m) == |h|
    ensures ManifestInv(m, rs, log, h + [p])
  {
    if m.Some? {
      var n := m.value.transactionId;
      HistoryFrame(rs, h, h[n - 1], m.value.objectVersions, p);
      assert (h + [p])[n - 1] == h[n - 1];
    }
  }

  /** The commit marker is the one write that extends the history. */
  lemma StepMarker(d: Disk, h: History, o: WriteOptions, p: WalPrepare)
    requires Inv(d, h, o) && Quiescent(d, h) && ValidPrepare(p, |h| + 1)
    requires p.transactionId in d.prepares && d.prepares[p.transactionId] == p
    requires p.snapshotFile in d.snapshots ==> d.snapshots[p.snapshotFile] == p.envelope
    ensures Inv(Apply(d, PutCommit(MarkerOf(p))), h + [p], o)
  {
    InvParts(d, h, o);
    LogFrame(d.transactions, h, p);
    WalExtend(d.prepares, d.commits, h, p);
    ManifestExtend(d.manifest, d.records, d.transactions, h, p);
  }

  lemma ExtendLog(log: Log, h: History, metadata: Option<string>)
    requires ValidHistory(h) && LogInv(log, h) && h != [] && LogLength(log) == |h| - 1
    ensures var r := PublishedRecord(log, h[|h| - 1], metadata);
            var log' := log[|h| := r];
            r.payload.transactionId == |h| && LogInv(log', h) && LogLength(log') == |h|
  {
    var p := h[|h| - 1];
    var r := PublishedRecord(log, p, metadata);
    var log' := log[|h| := r];
    LatestIsLogEnd(log, h);
    assert r == FreshRecord(log, p, metadata);
    HighestIs(log'.Keys, |h|);
    forall n | 1 <= n <= |h| ensures Chained(log', n) {
      assert n < |h| ==> Chained(log, n);
    }
  }

  lemma ManifestLogFrame(m: Option<Manifest>, rs: Records, log: Log, log': Log, h: History)
    requires ManifestInv(m, rs, log, h) && LogLength(log) <= LogLength(log')
    requires forall n | n in log :: n in log' && log'[n] == log[n]
    ensures ManifestInv(m, rs, log', h)
  {
  }

  lemma LogReplaced(d: Disk, h: History, o: WriteOptions, log: Log)
    requires Inv(d, h, o) && LogInv(log, h) && LogLength(d.transactions) <= LogLength(log)
    requires forall n | n in d.transactions :: n in log && log[n] == d.transactions[n]
    ensures Inv(d.(transactions := log), h, o)
  {
    InvParts(d, h, o);
    ManifestLogFrame(d.manifest, d.records, d.transactions, log, h);
  }

  /** Publishing the missing log record extends the hash chain by one. */
  lemma StepTransaction(d: Disk, h: History, o: WriteOptions, metadata: Option<string>)
    requires Inv(d, h, o) && h != [] && LogLength(d.transactions) == |h| - 1
    ensures var d' := Apply(d, PutTransaction(PublishedRecord(d.transactions, h[|h| - 1], metadata)));
            Inv(d', h, o) && LogLength(d'.transactions) == |h|
  {
    assert ValidHistory(h) && LogInv(d.transactions, h) by { InvParts(d, h, o); }
    ExtendLog(d.transactions, h, metadata);
    var r := PublishedRecord(d.transactions, h[|h| - 1], metadata);
    assert |h| !in d.transactions;
    LogReplaced(d, h, o, d.transactions[|h| := r]);
  }

  /** The manifest is replaced once the log is complete and every version it names is recorded. */
  lemma StepManifest(d: Disk, h: History, o: WriteOptions, versions: map<ObjectId, nat>)
    requires Inv(d, h, o) && h != [] && LogLength(d.transactions) == |h|
    requires VersionsInv(d.records, h, h[|h| - 1], versions)
    ensures var m := ManifestOf(h[|h| - 1], versions, d.transactions[|h|].transactionHash);
            var d' := Apply(d, PutManifest(m));
            Inv(d', h, o) && Quiescent(d', h)
  {
    InvParts(d, h, o);
  }
}
