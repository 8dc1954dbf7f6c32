/** Loading a store some of whose files are lost. */
module LostFiles {
  // The order in which loading turns to WAL, manifest and snapshot: what a reachable store loads once the files of one
  // of them are gone.

  import opened EncodedGraph
  import opened StorageDisk
  import opened CommitPlan
  import opened CrashInvariant
  import opened RecoverySafety

  /** The content and schema version of transaction `n`. */
  ghost predicate LoadsTransaction(l: Loaded, source: Source, h: History, n: nat) {
    && 1 <= n <= |h| && l.Loaded? && l.source == source
    && l.envelope == h[n - 1].envelope
    && l.session.transactionId == n && l.session.schemaVersion == h[n - 1].schemaVersion
    && l.session.objectVersions.Keys == l.envelope.nodes.Keys
  }

  /** Without its manifest a store still loads the last committed transaction. */
  lemma WithoutManifest(d: Disk, h: History, o: WriteOptions)
    requires Inv(d, h, o) && h != []
    ensures LoadsTransaction(Load(d.(manifest := None)), FromWal, h, |h|)
  {
    var d' := d.(manifest := None);
    Progress(d, h, o);
    WalFacts(d, h, o, |h|);
    assert PreparedFor(d', d'.commits[|h|]) == PreparedFor(d, d.commits[|h|]);
    assert LatestWal(d', |h|) == Some(h[|h| - 1]);
  }

  function WithoutWal(d: Disk): Disk {
    d.(prepares := map[], commits := map[])
  }

  lemma NoWal(d: Disk)
    ensures LatestWal(WithoutWal(d), Highest(WithoutWal(d).commits.Keys)) == None
  {
    assert WithoutWal(d).commits.Keys == {};
  }

  lemma ManifestReads(d: Disk, h: History, o: WriteOptions)
    requires Inv(d, h, o) && d.manifest.Some?
    ensures var m := d.manifest.value;
            && 1 <= m.transactionId <= |h| &&
               EnvelopeFromManifest(d.records, m) == Some(h[m.transactionId - 1].envelope)
            && m.schemaVersion == h[m.transactionId - 1].schemaVersion
            && ManifestVersions(m).Keys == h[m.transactionId - 1].envelope.nodes.Keys
  {
    InvParts(d, h, o);
    var m := d.manifest.value;
    ManifestReadsBack(d.records, h, h[m.transactionId - 1], m);
  }

  /**
   * Without its WAL a store loads the graph its manifest names, unless the log is ahead of the manifest: then it falls
   * back to the CURRENT snapshot rather than give the older graph.
   */
  lemma WithoutItsWal(d: Disk, h: History, o: WriteOptions)
    requires Inv(d, h, o) && d.manifest.Some?
    ensures if LatestTransactionId(d.transactions) == d.manifest.value.transactionId then
              LoadsTransaction(Load(WithoutWal(d)), FromManifest, h, d.manifest.value.transactionId)
            else Load(WithoutWal(d)) == LoadSnapshot(d)
  {
    NoWal(d);
    Progress(d, h, o);
    ManifestReads(d, h, o);
  }

  /** The CURRENT snapshot is that of a committed transaction, with the schema version its log record gives. */
  lemma SnapshotLoads(d: Disk, h: History, o: WriteOptions)
    requires Inv(d, h, o)
    ensures d.current.None? ==> LoadSnapshot(d) == Empty
    ensures d.current.Some? && d.current.value in d.transactions ==>
              LoadsTransaction(LoadSnapshot(d), FromSnapshot, h, d.current.value)
  {
    InvParts(d, h, o);
    if d.current.Some? && d.current.value in d.transactions {
      var n := d.current.value;
      assert d.snapshots[n] == h[n - 1].envelope;
      assert RecordFor(d.transactions[d.current.value], h[d.current.value - 1]);
    }
  }

  /** Without WAL and manifest only the snapshot is left; where its file is lost too, that is an error. */
  lemma WithoutWalAndManifest(d: Disk, h: History, o: WriteOptions)
    requires Inv(d, h, o)
    ensures Load(WithoutWal(d).(manifest := None)) == LoadSnapshot(d)
    ensures d.current.Some? ==> Load(WithoutWal(d).(manifest := None, snapshots := map[])) == Unreadable
  {
    var d' := WithoutWal(d).(manifest := None);
    assert d'.commits.Keys == {} && d'.(snapshots := map[]).commits.Keys == {};
  }

  /** A manifest one of whose records is lost is not loaded in part: the snapshot is. */
  lemma WithoutRecord(d: Disk, h: History, o: WriteOptions, id: ObjectId, rs: Records)
    requires Inv(d, h, o) && d.manifest.Some? && id in d.manifest.value.objectIds
    requires forall v: nat :: ReadObject(rs, id, v) == None
    ensures Load(WithoutWal(d).(records := rs)) == LoadSnapshot(d)
  {
    var d' := WithoutWal(d).(records := rs);
    assert d'.commits.Keys == {};
    assert ReadObject(rs, id, ManifestVersions(d.manifest.value)[id]) == None;
  }

  /** A manifest without object versions, of a transaction that wrote every node, loads as with them. */
  lemma WithoutVersions(d: Disk, h: History, o: WriteOptions)
    requires Inv(d, h, o) && Quiescent(d, h) && h != []
    requires var m := d.manifest.value; forall id | id in m.objectVersions :: m.objectVersions[id] == m.transactionId
    ensures Load(d.(manifest := Some(d.manifest.value.(objectVersions := map[])))) == Load(d)
  {
    ManifestFacts(d, h, o);
    var m := d.manifest.value;
    var d' := d.(manifest := Some(m.(objectVersions := map[])));
    ManifestReadsBack(d.records, h, h[|h| - 1], m);
    SameVersions(m);
    Progress(d, h, o);
    LatestWalIsLast(d, h, o);
    WalFacts(d, h, o, |h|);
    assert PreparedFor(d', d'.commits[|h|]) == PreparedFor(d, d.commits[|h|]);
    assert LatestWal(d', |h|) == Some(h[|h| - 1]);
    assert EnvelopeFromManifest(d.records, m) == EnvelopeFromManifest(d.records, m.(objectVersions := map[]));
  }

  lemma SameVersions(m: Manifest)
    requires m.objectVersions.Keys == m.objectIds
    requires forall id | id in m.objectVersions :: m.objectVersions[id] == m.transactionId
    ensures ManifestVersions(m.(objectVersions := map[])) == ManifestVersions(m) == m.objectVersions
  {
  }
}
