/** What a store that passes verification is known to be. */
module VerifierMeaning {
  // Consequences of passing, for any store at all: the latest hash fixes the log below it and the snapshots it
  // names, and loading finds the newest commit or a closed graph.

  import opened EncodedGraph
  import opened StorageDisk
  import opened CommitPlan
  import opened StorageVerifier

  /** Transaction records and commit markers are filed under their own numbers. */
  ghost predicate FiledByNumber(d: Disk) {
    && (forall n | n in d.transactions :: d.transactions[n].payload.transactionId == n)
    && (forall n | n in d.commits :: d.commits[n].transactionId == n)
  }

  ghost predicate ChainAccepted(d: Disk) {
    FiledByNumber(d) && forall n | n in d.transactions :: RecordAccepted(d, n)
  }

  /** The two logs agree up to `n`. */
  ghost predicate SameUpTo(a: Log, b: Log, n: nat) {
    forall k | k <= n :: (k in a <==> k in b) && (k in a ==> a[k] == b[k])
  }

  /** `j` is the number of the record right before `n`, none when `n` is the first. */
  ghost predicate Before(log: Log, n: nat, j: Option<nat>) {
    && (j.Some? ==> j.value in log && j.value < n)
    && forall k | k < n && (j.Some? ==> k > j.value) :: k !in log
  }

  lemma PredecessorOf(log: Log, n: nat) returns (j: Option<nat>)
    ensures Before(log, n, j)
    ensures PreviousOf(log, n) == if j.Some? then Some(log[j.value].transactionHash) else None
  {
    var before := set k | k in log && k < n;
    j := if before == {} then None else Some(Highest(before));
    forall k | k < n && (j.Some? ==> k > j.value) ensures k !in log {
      assert k !in before;
    }
  }

  /** Equal hashes are of one record, and what precedes it has one hash too. */
  lemma SameLink(d: Disk, d': Disk, n: nat, n': nat)
    requires ChainAccepted(d) && ChainAccepted(d') && n in d.transactions && n' in d'.transactions
    requires d.transactions[n].transactionHash == d'.transactions[n'].transactionHash
    ensures n' == n && d.transactions[n] == d'.transactions[n]
    ensures PreviousOf(d.transactions, n) == PreviousOf(d'.transactions, n)
  {
    assert RecordAccepted(d, n) && RecordAccepted(d', n');
    assert d.transactions[n].payload == d'.transactions[n'].payload;
  }

  lemma SameBelow(a: Log, b: Log, n: nat, j: Option<nat>)
    requires Before(a, n, j) && Before(b, n, j) && (j.Some? ==> SameUpTo(a, b, j.value))
    requires n in a && n in b && a[n] == b[n]
    ensures SameUpTo(a, b, n)
  {
  }

  /** A transaction hash fixes its record and, through the chain, every record below it. */
  lemma {:induction false} HashPinsLog(d: Disk, d': Disk, n: nat, n': nat)
    requires ChainAccepted(d) && ChainAccepted(d') && n in d.transactions && n' in d'.transactions
    requires d.transactions[n].transactionHash == d'.transactions[n'].transactionHash
    ensures n' == n && SameUpTo(d.transactions, d'.transactions, n)
    decreases n
  {
    SameLink(d, d', n, n');
    var j := PredecessorOf(d.transactions, n);
    var j' := PredecessorOf(d'.transactions, n);
    if j.Some? {
      HashPinsLog(d, d', j.value, j'.value);
    }
    SameBelow(d.transactions, d'.transactions, n, j);
  }

  ghost predicate Published(d: Disk) {
    d.manifest.Some? && d.manifest.value.transactionId in d.transactions
  }

  /**
   * Two accepted stores whose manifests carry the same hash have the same transactions up to the published one, and the
   * same content in every snapshot these name.
   */
  lemma AcceptedStoresAgree(d: Disk, d': Disk, lazyFiles: set<string>, lazyFiles': set<string>)
    requires Accepted(d, lazyFiles) && Accepted(d', lazyFiles') && FiledByNumber(d) && FiledByNumber(d')
    requires Published(d) && Published(d')
    requires d.manifest.value.latestTransactionHash == d'.manifest.value.latestTransactionHash
    ensures var n := d.manifest.value.transactionId;
            && d'.manifest.value.transactionId == n
            && SameUpTo(d.transactions, d'.transactions, n)
            && (forall k | k <= n && k in d.transactions ::
                 var file := d.transactions[k].payload.snapshotFile;
                 file in d.snapshots && file in d'.snapshots ==> d.snapshots[file] == d'.snapshots[file])
            && (d.manifest.value.schemaVersion != 0 && d'.manifest.value.schemaVersion != 0 ==>
                  d.manifest.value.schemaVersion == d'.manifest.value.schemaVersion)
  {
    var n, n' := d.manifest.value.transactionId, d'.manifest.value.transactionId;
    HashPinsLog(d, d', n, n');
    forall k | k <= n && k in d.transactions
      ensures var file := d.transactions[k].payload.snapshotFile;
              file in d.snapshots && file in d'.snapshots ==> d.snapshots[file] == d'.snapshots[file]
    {
      assert RecordAccepted(d, k) && RecordAccepted(d', k);
    }
  }

  lemma {:induction false} NewestMarker(d: Disk, n: nat)
    requires WalAccepted(d)
    ensures LatestWal(d, n).Some? ==>
              exists k | k in d.commits && 0 < k <= n ::
                LatestWal(d, n) == PreparedFor(d, d.commits[k]) && forall j | k < j <= n :: j !in d.commits
    ensures LatestWal(d, n).None? ==> forall j | 0 < j <= n :: j !in d.commits
    decreases n
  {
    if n > 0 && n !in d.commits {
      NewestMarker(d, n - 1);
    } else if n > 0 {
      assert WalEntrySound(d, n);
    }
  }

  /** Some record of the id holds this node and calls itself by that id. */
  ghost predicate HasRecord(d: Disk, id: ObjectId, node: EncodedNode) {
    exists v: nat :: ReadObject(d.records, id, v).Some? &&
      ReadObject(d.records, id, v).value.objectId == id && ReadObject(d.records, id, v).value.node == node
  }

  /** The newest commit marker is newer than what the manifest names, and the load is what it prepared. */
  ghost predicate LoadsCommit(d: Disk, l: Loaded) {
    exists n | n in d.commits && n > PublishedId(d.manifest) && forall k | k in d.commits :: k <= n ::
      && d.commits[n].prepareFile in d.prepares
      && l.Loaded? && l.envelope == d.prepares[d.commits[n].prepareFile].envelope
      && l.session.transactionId == n && l.session.schemaVersion == d.commits[n].schemaVersion
  }

  /** The load is the closed graph the manifest lists, and neither marker nor record is newer. */
  ghost predicate LoadsManifest(d: Disk, lazyFiles: set<string>, l: Loaded) {
    && d.manifest.Some? && l.Loaded?
    && var m := d.manifest.value;
       && l.envelope.root == m.root && l.envelope.nodes.Keys == m.objectIds && Closed(l.envelope)
       && l.session.transactionId == m.transactionId && l.session.schemaVersion == m.schemaVersion
       && (forall id | id in l.envelope.nodes ::
            && HasRecord(d, id, l.envelope.nodes[id])
            && (l.envelope.nodes[id].LazyNode? ==> l.envelope.nodes[id].key in lazyFiles))
       && (forall k | k in d.commits || k in d.transactions :: k <= m.transactionId)
  }

  /** An accepted store loads: the newest commit, or the manifest's graph when nothing is newer; never a snapshot. */
  lemma AcceptedLoads(d: Disk, lazyFiles: set<string>)
    requires Accepted(d, lazyFiles) && FiledByNumber(d)
    ensures LoadsCommit(d, Load(d)) || LoadsManifest(d, lazyFiles, Load(d))
  {
    var top := Highest(d.commits.Keys);
    NewestMarker(d, top);
    var wal := LatestWal(d, top);
    if wal.Some? && wal.value.transactionId > PublishedId(d.manifest) {
      var k :| k in d.commits && 0 < k <= top && wal == PreparedFor(d, d.commits[k]) &&
               forall j | k < j <= top :: j !in d.commits;
      assert WalEntrySound(d, k);
      assert forall j | j in d.commits :: j <= k;
    } else {
      NothingPending(d);
      AcceptedManifest(d, lazyFiles);
    }
  }

  lemma NothingPending(d: Disk)
    requires WalAccepted(d) && FiledByNumber(d)
    requires var wal := LatestWal(d, Highest(d.commits.Keys));
             wal.Some? ==> wal.value.transactionId <= PublishedId(d.manifest)
    ensures forall n | n in d.commits :: n <= PublishedId(d.manifest)
    ensures Pending(d, PublishedId(d.manifest)) == {}
  {
    NewestMarker(d, Highest(d.commits.Keys));
    forall n | n in d.commits ensures n <= PublishedId(d.manifest) {
      assert WalEntrySound(d, n);
    }
  }

  lemma AcceptedManifest(d: Disk, lazyFiles: set<string>)
    requires Accepted(d, lazyFiles) && FiledByNumber(d)
    requires Pending(d, PublishedId(d.manifest)) == {} && forall n | n in d.commits :: n <= PublishedId(d.manifest)
    requires var wal := LatestWal(d, Highest(d.commits.Keys));
             wal.Some? ==> wal.value.transactionId <= PublishedId(d.manifest)
    ensures LoadsManifest(d, lazyFiles, Load(d))
  {
    var m := d.manifest.value;
    ReadsClosed(d, m, lazyFiles);
    LogBehind(d.transactions, m.transactionId);
  }

  lemma LogBehind(log: Log, n: nat)
    requires (forall k | k in log :: log[k].payload.transactionId == k) && LatestTransactionId(log) <= n
    ensures forall k | k in log :: k <= n
  {
  }

  lemma ReadsClosed(d: Disk, m: Manifest, lazyFiles: set<string>)
    requires GraphAccepted(d, m, lazyFiles)
    ensures EnvelopeFromManifest(d.records, m).Some?
    ensures var e := EnvelopeFromManifest(d.records, m).value;
            && e.root == m.root && e.nodes.Keys == m.objectIds && Closed(e)
            && forall id | id in e.nodes ::
                 HasRecord(d, id, e.nodes[id]) && (e.nodes[id].LazyNode? ==> e.nodes[id].key in lazyFiles)
  {
    forall id | id in m.objectIds ensures ReadObject(d.records, id, ManifestVersions(m)[id]).Some? {
      assert ObjectAccepted(d, m, lazyFiles, id);
    }
    var e := EnvelopeFromManifest(d.records, m).value;
    forall id | id in m.objectIds
      ensures HasRecord(d, id, e.nodes[id]) && (e.nodes[id].LazyNode? ==> e.nodes[id].key in lazyFiles)
      ensures forall to | RefersTo(e.nodes[id], to) :: to in m.objectIds
    {
      assert ObjectAccepted(d, m, lazyFiles, id);
      var v := ManifestVersions(m)[id];
      assert ReadObject(d.records, id, v).Some?;
    }
  }
}
