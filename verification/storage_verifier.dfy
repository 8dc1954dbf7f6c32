/** `verifyStorage` and what it accepts. */
module StorageVerifier {
  // `verifyStorage`: the loops of the verifier, what they accept, and that every reachable store is accepted.

  import opened EncodedGraph
  import opened StorageDisk
  import opened CommitPlan
  import opened CrashInvariant
  import opened RecoverySafety
  import opened CrashRuns

  datatype Finding =
    | MissingManifest
    | MissingPrepare(transactionId: nat)
    | InvalidPrepare(transactionId: nat)
    | WalSchemaMismatch(transactionId: nat)
    | ManifestBehind
    | InvalidPreviousHash(transactionId: nat)
    | InvalidTransactionHash(transactionId: nat)
    | SnapshotMismatch(transactionId: nat)
    | LatestHashMismatch
    | ManifestSchemaMismatch
    | MissingObject(objectId: ObjectId)
    | MismatchedObject(objectId: ObjectId)
    | DanglingReference(objectId: ObjectId)
    | MissingLazyFile(key: string)

  /** A WAL commit is sound when its prepare record exists, carries its number and agrees on the schema version. */
  predicate WalEntrySound(d: Disk, n: nat)
    requires n in d.commits
  {
    var c := d.commits[n];
    && c.prepareFile in d.prepares
    && d.prepares[c.prepareFile].transactionId == c.transactionId
    && d.prepares[c.prepareFile].schemaVersion == c.schemaVersion
  }

  predicate IsPending(d: Disk, n: nat, published: nat)
    requires n in d.commits
  {
    d.commits[n].prepareFile in d.prepares && d.commits[n].transactionId > published
  }

  function Pending(d: Disk, published: nat): set<nat> {
    set n | n in d.commits && IsPending(d, n, published)
  }

  ghost predicate WalAccepted(d: Disk) {
    forall n | n in d.commits :: WalEntrySound(d, n)
  }

  /** What is reported of one WAL commit. */
  predicate WalFinding(d: Disk, n: nat, f: Finding)
    requires n in d.commits
  {
    var c := d.commits[n];
    if c.prepareFile !in d.prepares then f == MissingPrepare(c.transactionId)
    else
      var p := d.prepares[c.prepareFile];
      || (p.transactionId != c.transactionId && f == InvalidPrepare(c.transactionId))
      || (p.schemaVersion != c.schemaVersion && f == WalSchemaMismatch(c.transactionId))
  }

  method VerifyWal(d: Disk, published: nat) returns (pending: nat, errors: seq<Finding>)
    ensures pending == |Pending(d, published)|
    ensures forall f :: f in errors <==> exists n | n in d.commits :: WalFinding(d, n, f)
    ensures errors == [] <==> WalAccepted(d)
  {
    pending, errors := 0, [];
    var rest := d.commits.Keys;
    ghost var counted: set<nat> := {};
    while rest != {}
      invariant rest <= d.commits.Keys && counted !! rest
      invariant counted == set n | n in d.commits && n !in rest && IsPending(d, n, published)
      invariant pending == |counted|
      invariant forall f :: f in errors <==> exists n | n in d.commits && n !in rest :: WalFinding(d, n, f)
    {
      var n :| n in rest;
      var found := VerifyCommit(d, n);
      errors := errors + found;
      if IsPending(d, n, published) {
        pending := pending + 1;
        counted := counted + {n};
      }
      rest := rest - {n};
    }
    assert counted == Pending(d, published);
    WalFindings(d, errors);
  }

  method VerifyCommit(d: Disk, n: nat) returns (errors: seq<Finding>)
    requires n in d.commits
    ensures forall f :: f in errors <==> WalFinding(d, n, f)
  {
    errors := [];
    var c := d.commits[n];
    if c.prepareFile !in d.prepares {
      errors := errors + [MissingPrepare(c.transactionId)];
    } else {
      var p := d.prepares[c.prepareFile];
      if p.transactionId != c.transactionId { errors := errors + [InvalidPrepare(c.transactionId)]; }
      if p.schemaVersion != c.schemaVersion { errors := errors + [WalSchemaMismatch(c.transactionId)]; }
    }
  }

  lemma WalFindings(d: Disk, errors: seq<Finding>)
    requires forall f :: f in errors <==> exists n | n in d.commits :: WalFinding(d, n, f)
    ensures errors == [] <==> WalAccepted(d)
  {
    if errors != [] {
      var f := errors[0];
      assert f in errors;
      var n :| n in d.commits && WalFinding(d, n, f);
    }
    if !WalAccepted(d) {
      var f := WalRejected(d);
      assert f in errors;
    }
  }

  lemma WalRejected(d: Disk) returns (f: Finding)
    requires !WalAccepted(d)
    ensures exists n | n in d.commits :: WalFinding(d, n, f)
  {
    var n :| n in d.commits && !WalEntrySound(d, n);
    var c := d.commits[n];
    f := if c.prepareFile !in d.prepares then MissingPrepare(c.transactionId)
         else if d.prepares[c.prepareFile].transactionId != c.transactionId then InvalidPrepare(c.transactionId)
         else WalSchemaMismatch(c.transactionId);
    assert WalFinding(d, n, f);
  }

  /** The record before `n` in the log, whatever its number. */
  ghost function Predecessor(log: Log, n: nat): Option<TransactionRecord> {
    var before := set k | k in log && k < n;
    if before == {} then None else Some(log[Highest(before)])
  }

  ghost function PreviousOf(log: Log, n: nat): Option<Digest> {
    var previous := Predecessor(log, n);
    if previous.Some? then Some(previous.value.transactionHash) else None
  }

  ghost predicate RecordAccepted(d: Disk, n: nat)
    requires n in d.transactions
  {
    Continues(d, n, PreviousOf(d.transactions, n))
  }

  /** The record continues the chain from the given hash, and its own hashes are right. */
  predicate Continues(d: Disk, n: nat, previousHash: Option<Digest>)
    requires n in d.transactions
  {
    var t := d.transactions[n];
    && t.payload.previousHash == previousHash
    && t.transactionHash == TransactionDigest(t.payload)
    && (t.payload.snapshotFile in d.snapshots ==>
        t.payload.envelopeHash == EnvelopeDigest(d.snapshots[t.payload.snapshotFile]))
  }

  predicate ManifestAgrees(d: Disk, m: Manifest) {
    m.transactionId in d.transactions ==>
      var t := d.transactions[m.transactionId];
      && m.latestTransactionHash == t.transactionHash
      && (m.schemaVersion != 0 ==> m.schemaVersion == t.payload.schemaVersion)
  }

  ghost predicate LogAccepted(d: Disk, m: Manifest) {
    (forall n | n in d.transactions :: RecordAccepted(d, n)) && ManifestAgrees(d, m)
  }

  method LowestKey(keys: set<nat>) returns (n: nat)
    requires keys != {}
    ensures n in keys && forall k | k in keys :: n <= k
  {
    n :| n in keys;
    var rest := keys - {n};
    while rest != {}
      invariant rest <= keys && n in keys
      invariant forall k | k in keys && k !in rest :: n <= k
    {
      var k :| k in rest;
      if k < n { n := k; }
      rest := rest - {k};
    }
  }

  /** What is reported of one transaction record. */
  predicate RecordFinding(d: Disk, n: nat, previousHash: Option<Digest>, f: Finding)
    requires n in d.transactions
  {
    var t := d.transactions[n];
    match f
    case InvalidPreviousHash(k) => k == n && t.payload.previousHash != previousHash
    case InvalidTransactionHash(k) => k == n && t.transactionHash != TransactionDigest(t.payload)
    case SnapshotMismatch(k) =>
      k == n && t.payload.snapshotFile in d.snapshots &&
      t.payload.envelopeHash != EnvelopeDigest(d.snapshots[t.payload.snapshotFile])
    case _ => false
  }

  method VerifyRecord(d: Disk, n: nat, previousHash: Option<Digest>) returns (errors: seq<Finding>)
    requires n in d.transactions
    ensures forall f :: f in errors <==> RecordFinding(d, n, previousHash, f)
    ensures errors == [] <==> Continues(d, n, previousHash)
  {
    var t := d.transactions[n];
    errors := [];
    if t.payload.previousHash != previousHash { errors := errors + [InvalidPreviousHash(n)]; }
    if t.transactionHash != TransactionDigest(t.payload) { errors := errors + [InvalidTransactionHash(n)]; }
    if t.payload.snapshotFile in d.snapshots &&
       t.payload.envelopeHash != EnvelopeDigest(d.snapshots[t.payload.snapshotFile]) {
      errors := errors + [SnapshotMismatch(n)];
    }
  }

  /** The records not in `rest` come first, and `last` is the last of them. */
  ghost predicate Passed(log: Log, rest: set<nat>, last: Option<nat>) {
    && rest <= log.Keys
    && (last.None? ==> rest == log.Keys)
    && (last.Some? ==> last.value in log && last.value !in rest && forall k | k in log && k !in rest :: k <= last.value)
    && (forall k, j | k in log && k !in rest && j in rest :: k < j)
  }

  lemma PassedNext(log: Log, rest: set<nat>, last: Option<nat>, n: nat)
    requires Passed(log, rest, last) && n in rest && forall k | k in rest :: n <= k
    ensures PreviousOf(log, n) == if last.Some? then Some(log[last.value].transactionHash) else None
    ensures Passed(log, rest - {n}, Some(n))
  {
    PredecessorIs(log, n, last);
  }

  /** What is reported of the transaction log, each record against the one before it. */
  ghost predicate LogFinding(d: Disk, f: Finding) {
    exists n | n in d.transactions :: RecordFinding(d, n, PreviousOf(d.transactions, n), f)
  }

  /** What is reported of the manifest against the record of its transaction. */
  predicate ManifestFinding(d: Disk, m: Manifest, f: Finding) {
    && m.transactionId in d.transactions
    && var t := d.transactions[m.transactionId];
       || (f.LatestHashMismatch? && m.latestTransactionHash != t.transactionHash)
       || (f.ManifestSchemaMismatch? && m.schemaVersion != 0 && m.schemaVersion != t.payload.schemaVersion)
  }

  /** The hash chain is followed in transaction order with the running previous hash. */
  method VerifyTransactionIntegrity(d: Disk, m: Manifest) returns (errors: seq<Finding>)
    ensures forall f :: f in errors <==> LogFinding(d, f) || ManifestFinding(d, m, f)
    ensures errors == [] <==> LogAccepted(d, m)
  {
    errors := [];
    var previousHash: Option<Digest> := None;
    var rest := d.transactions.Keys;
    ghost var last: Option<nat> := None;
    while rest != {}
      invariant rest <= d.transactions.Keys
      invariant Passed(d.transactions, rest, last)
      invariant previousHash == if last.Some? then Some(d.transactions[last.value].transactionHash) else None
      invariant errors == [] <==> forall n | n in d.transactions && n !in rest :: RecordAccepted(d, n)
      invariant forall f :: f in errors <==> exists n | n in d.transactions && n !in rest ::
                  RecordFinding(d, n, PreviousOf(d.transactions, n), f)
    {
      var n := LowestKey(rest);
      PassedNext(d.transactions, rest, last, n);
      var found := VerifyRecord(d, n, previousHash);
      errors := errors + found;
      previousHash := Some(d.transactions[n].transactionHash);
      last := Some(n);
      rest := rest - {n};
    }
    var found := VerifyManifestRecord(d, m);
    errors := errors + found;
  }

  method VerifyManifestRecord(d: Disk, m: Manifest) returns (errors: seq<Finding>)
    ensures forall f :: f in errors <==> ManifestFinding(d, m, f)
    ensures errors == [] <==> ManifestAgrees(d, m)
  {
    errors := [];
    if m.transactionId in d.transactions {
      var t := d.transactions[m.transactionId];
      if m.latestTransactionHash != t.transactionHash { errors := errors + [LatestHashMismatch]; }
      if m.schemaVersion != 0 &&
         m.schemaVersion != t.payload.schemaVersion { errors := errors + [ManifestSchemaMismatch]; }
    }
  }

  lemma PredecessorIs(log: Log, n: nat, last: Option<nat>)
    requires n in log
    requires last.None? ==> forall k | k in log :: n <= k
    requires last.Some? ==> last.value in log && last.value < n && forall k | k in log && k < n :: k <= last.value
    ensures Predecessor(log, n) == if last.Some? then Some(log[last.value]) else None
  {
    var before := set k | k in log && k < n;
    if last.Some? {
      assert last.value in before;
    }
  }

  ghost predicate ObjectAccepted(d: Disk, m: Manifest, lazyFiles: set<string>, id: ObjectId)
    requires id in m.objectIds
  {
    var r := ReadObject(d.records, id, ManifestVersions(m)[id]);
    && r.Some?
    && r.value.objectId == id
    && (forall to | RefersTo(r.value.node, to) :: to in m.objectIds)
    && (r.value.node.LazyNode? ==> r.value.node.key in lazyFiles)
  }

  ghost predicate GraphAccepted(d: Disk, m: Manifest, lazyFiles: set<string>) {
    && (m.root.Ref? ==> m.root.id in m.objectIds)
    && forall id | id in m.objectIds :: ObjectAccepted(d, m, lazyFiles, id)
  }

  /** The references of one node that the manifest does not list. */
  method DanglingReferences(slots: seq<EncodedValue>, known: set<ObjectId>) returns (errors: seq<Finding>)
    ensures forall f :: f in errors <==> f.DanglingReference? && Ref(f.objectId) in slots && f.objectId !in known
  {
    errors := [];
    for i := 0 to |slots|
      invariant forall f :: f in errors <==>
                  f.DanglingReference? && Ref(f.objectId) in slots[..i] && f.objectId !in known
    {
      assert slots[..i + 1] == slots[..i] + [slots[i]];
      if slots[i].Ref? && slots[i].id !in known {
        errors := errors + [DanglingReference(slots[i].id)];
      }
    }
    assert slots[..|slots|] == slots;
  }

  /** What is reported of one object the manifest lists. */
  ghost predicate ObjectFinding(d: Disk, m: Manifest, lazyFiles: set<string>, id: ObjectId, f: Finding)
    requires id in m.objectIds
  {
    var r := ReadObject(d.records, id, ManifestVersions(m)[id]);
    match f
    case MissingObject(k) => k == id && r.None?
    case MismatchedObject(k) => k == id && r.Some? && r.value.objectId != id
    case DanglingReference(to) => r.Some? && RefersTo(r.value.node, to) && to !in m.objectIds
    case MissingLazyFile(key) => r.Some? && r.value.node == LazyNode(key) && key !in lazyFiles
    case _ => false
  }

  method VerifyObject(d: Disk, m: Manifest, lazyFiles: set<string>, id: ObjectId) returns (errors: seq<Finding>)
    requires id in m.objectIds
    ensures forall f :: f in errors <==> ObjectFinding(d, m, lazyFiles, id, f)
  {
    var r := ReadObject(d.records, id, ManifestVersions(m)[id]);
    if r.None? { return [MissingObject(id)]; }
    errors := DanglingReferences(Slots(r.value.node), m.objectIds);
    if r.value.objectId != id { errors := errors + [MismatchedObject(id)]; }
    if r.value.node.LazyNode? && r.value.node.key !in lazyFiles {
      errors := errors + [MissingLazyFile(r.value.node.key)];
    }
  }

  lemma ObjectFindings(d: Disk, m: Manifest, lazyFiles: set<string>, id: ObjectId)
    requires id in m.objectIds
    ensures ObjectAccepted(d, m, lazyFiles, id) <==> !exists f :: ObjectFinding(d, m, lazyFiles, id, f)
  {
    var r := ReadObject(d.records, id, ManifestVersions(m)[id]);
    if r.None? {
      assert ObjectFinding(d, m, lazyFiles, id, MissingObject(id));
    } else if !ObjectAccepted(d, m, lazyFiles, id) {
      if to :| RefersTo(r.value.node, to) && to !in m.objectIds {
        assert ObjectFinding(d, m, lazyFiles, id, DanglingReference(to));
      } else if r.value.objectId != id {
        assert ObjectFinding(d, m, lazyFiles, id, MismatchedObject(id));
      } else {
        assert ObjectFinding(d, m, lazyFiles, id, MissingLazyFile(r.value.node.key));
      }
    }
  }

  /** What is reported of the graph the manifest describes. */
  ghost predicate GraphFinding(d: Disk, m: Manifest, lazyFiles: set<string>, f: Finding) {
    || (f.DanglingReference? && m.root == Ref(f.objectId) && f.objectId !in m.objectIds)
    || exists id | id in m.objectIds :: ObjectFinding(d, m, lazyFiles, id, f)
  }

  method VerifyGraph(d: Disk, m: Manifest, lazyFiles: set<string>) returns (errors: seq<Finding>)
    ensures forall f :: f in errors <==> GraphFinding(d, m, lazyFiles, f)
    ensures errors == [] <==> GraphAccepted(d, m, lazyFiles)
  {
    errors := if m.root.Ref? && m.root.id !in m.objectIds then [DanglingReference(m.root.id)] else [];
    ghost var first := errors;
    var rest := m.objectIds;
    while rest != {}
      invariant rest <= m.objectIds
      invariant forall f :: f in errors <==> f in first || exists id | id in m.objectIds && id !in rest ::
                  ObjectFinding(d, m, lazyFiles, id, f)
    {
      var id :| id in rest;
      var found := VerifyObject(d, m, lazyFiles, id);
      errors := errors + found;
      rest := rest - {id};
    }
    GraphFindings(d, m, lazyFiles, errors);
  }

  lemma GraphFindings(d: Disk, m: Manifest, lazyFiles: set<string>, errors: seq<Finding>)
    requires forall f :: f in errors <==> GraphFinding(d, m, lazyFiles, f)
    ensures errors == [] <==> GraphAccepted(d, m, lazyFiles)
  {
    forall id | id in m.objectIds
      ensures ObjectAccepted(d, m, lazyFiles, id) <==> !exists f :: ObjectFinding(d, m, lazyFiles, id, f)
    {
      ObjectFindings(d, m, lazyFiles, id);
    }
    if errors != [] {
      assert GraphFinding(d, m, lazyFiles, errors[0]);
    }
    if !GraphAccepted(d, m, lazyFiles) {
      var f := GraphRejected(d, m, lazyFiles);
      assert f in errors;
    }
  }

  lemma GraphRejected(d: Disk, m: Manifest, lazyFiles: set<string>) returns (f: Finding)
    requires !GraphAccepted(d, m, lazyFiles)
    ensures GraphFinding(d, m, lazyFiles, f)
  {
    if m.root.Ref? && m.root.id !in m.objectIds {
      f := DanglingReference(m.root.id);
    } else {
      var id :| id in m.objectIds && !ObjectAccepted(d, m, lazyFiles, id);
      ObjectFindings(d, m, lazyFiles, id);
      f :| ObjectFinding(d, m, lazyFiles, id, f);
    }
  }

  /** What `verify()` calls ok: sound WAL pairs and, once there is a manifest, a sound log, graph and position. */
  ghost predicate Accepted(d: Disk, lazyFiles: set<string>) {
    && WalAccepted(d)
    && (d.manifest.None? ==> Pending(d, 0) != {})
    && (d.manifest.Some? ==>
      var m := d.manifest.value;
      && LogAccepted(d, m)
      && GraphAccepted(d, m, lazyFiles)
      && (LatestTransactionId(d.transactions) > m.transactionId ==> Pending(d, m.transactionId) != {}))
  }

  method LatestId(log: Log) returns (n: nat)
    ensures n == LatestTransactionId(log)
  {
    n := 0;
    var rest, top := log.Keys, 0;
    while rest != {}
      invariant rest <= log.Keys
      invariant forall k | k in log && k !in rest :: k <= top
      invariant top == 0 || top in log
    {
      var k :| k in rest;
      if k > top { top := k; }
      rest := rest - {k};
    }
    if top in log { n := log[top].payload.transactionId; }
  }

  /** Every finding and nothing else, whatever the state of the store. */
  ghost predicate Reported(d: Disk, lazyFiles: set<string>, f: Finding) {
    || (exists n | n in d.commits :: WalFinding(d, n, f))
    || (d.manifest.None? && Pending(d, 0) == {} && f.MissingManifest?)
    || (d.manifest.Some? &&
        var m := d.manifest.value;
        || LogFinding(d, f) || ManifestFinding(d, m, f) || GraphFinding(d, m, lazyFiles, f)
        || (f.ManifestBehind? && LatestTransactionId(d.transactions) > m.transactionId &&
            Pending(d, m.transactionId) == {}))
  }

  method VerifyStorage(d: Disk, lazyFiles: set<string>) returns (ok: bool, pending: nat, errors: seq<Finding>)
    ensures ok <==> errors == []
    ensures ok <==> Accepted(d, lazyFiles)
    ensures forall f :: f in errors <==> Reported(d, lazyFiles, f)
    ensures pending == |Pending(d, PublishedId(d.manifest))|
  {
    pending, errors := VerifyWal(d, PublishedId(d.manifest));
    if d.manifest.None? {
      if pending == 0 { errors := errors + [MissingManifest]; }
    } else {
      var m := d.manifest.value;
      var latest := LatestId(d.transactions);
      if latest > m.transactionId && pending == 0 { errors := errors + [ManifestBehind]; }
      var log := VerifyTransactionIntegrity(d, m);
      var graph := VerifyGraph(d, m, lazyFiles);
      errors := errors + log + graph;
    }
    ok := errors == [];
  }

  /** What the serializer guarantees of every committed envelope, and lazy references of their payload files. */
  ghost predicate SoundEnvelope(e: Envelope, lazyFiles: set<string>) {
    Closed(e) && forall id | id in e.nodes && e.nodes[id].LazyNode? :: e.nodes[id].key in lazyFiles
  }

  lemma ReachableWal(d: Disk, h: History, o: WriteOptions)
    requires Inv(d, h, o)
    ensures WalAccepted(d)
    ensures Pending(d, PublishedId(d.manifest)) == if Quiescent(d, h) then {} else {|h|}
  {
    Progress(d, h, o);
    forall n | n in d.commits
      ensures WalEntrySound(d, n) && (IsPending(d, n, PublishedId(d.manifest)) <==> n > PublishedId(d.manifest))
    {
      assert 1 <= n <= |h| by { InvParts(d, h, o); }
      WalFacts(d, h, o, n);
    }
    if !Quiescent(d, h) {
      WalFacts(d, h, o, |h|);
    }
    assert forall n :: n in d.commits ==> 1 <= n <= |h| by { InvParts(d, h, o); }
  }

  lemma ChainPredecessor(log: Log, h: History, n: nat)
    requires LogInv(log, h) && n in log
    ensures Predecessor(log, n) == if n == 1 then None else Some(log[n - 1])
  {
    PredecessorIs(log, n, if n == 1 then None else Some(n - 1));
  }

  lemma ReachableRecord(d: Disk, h: History, n: nat)
    requires ValidHistory(h) && LogInv(d.transactions, h) && SnapshotInv(d.snapshots, d.current, h) &&
             n in d.transactions
    ensures RecordAccepted(d, n)
  {
    assert RecordFor(d.transactions[n], h[n - 1]) && Chained(d.transactions, n) && ValidPrepare(h[n - 1], n);
    ChainPredecessor(d.transactions, h, n);
  }

  lemma ReachableLog(d: Disk, h: History, o: WriteOptions)
    requires Inv(d, h, o) && d.manifest.Some?
    ensures LogAccepted(d, d.manifest.value)
  {
    InvParts(d, h, o);
    ReachableRecords(d, h);
    ManifestFollows(d, h);
  }

  lemma ManifestFollows(d: Disk, h: History)
    requires d.manifest.Some? && LogInv(d.transactions, h) && ManifestInv(d.manifest, d.records, d.transactions, h)
    ensures ManifestAgrees(d, d.manifest.value)
  {
    var n := d.manifest.value.transactionId;
    assert RecordFor(d.transactions[n], h[n - 1]) && Describes(d.manifest.value, h[n - 1], d.transactions[n]);
  }

  lemma ReachableRecords(d: Disk, h: History)
    requires ValidHistory(h) && LogInv(d.transactions, h) && SnapshotInv(d.snapshots, d.current, h)
    ensures forall n | n in d.transactions :: RecordAccepted(d, n)
  {
    forall n | n in d.transactions ensures RecordAccepted(d, n) {
      ReachableRecord(d, h, n);
    }
  }

  lemma SoundObject(d: Disk, m: Manifest, e: Envelope, lazyFiles: set<string>, id: ObjectId)
    requires SoundEnvelope(e, lazyFiles) && m.objectIds == e.nodes.Keys && id in m.objectIds
    requires ReadObject(d.records, id, ManifestVersions(m)[id]) ==
             Some(ObjectRecord(id, ManifestVersions(m)[id], e.nodes[id]))
    ensures ObjectAccepted(d, m, lazyFiles, id)
  {
    forall to | RefersTo(e.nodes[id], to) ensures to in m.objectIds {}
  }

  lemma ReachableGraph(d: Disk, h: History, o: WriteOptions, lazyFiles: set<string>)
    requires Inv(d, h, o) && d.manifest.Some?
    requires forall i | 0 <= i < |h| :: SoundEnvelope(h[i].envelope, lazyFiles)
    ensures GraphAccepted(d, d.manifest.value, lazyFiles)
  {
    var m := d.manifest.value;
    InvParts(d, h, o);
    var p := h[m.transactionId - 1];
    assert SoundEnvelope(p.envelope, lazyFiles);
    ManifestReadsBack(d.records, h, p, m);
    forall id | id in m.objectIds
      ensures ObjectAccepted(d, m, lazyFiles, id)
    {
      assert Recorded(d.records, h, id, m.objectVersions[id], p.envelope.nodes[id]);
      SoundObject(d, m, p.envelope, lazyFiles, id);
    }
  }

  /**
   * After the first commit marker every reachable disk, mid-commit and mid-recovery included, passes verification
   * with at most one pending WAL commit: the last one, exactly while its manifest is not published.
   */
  lemma ReachableAccepted(st: Store, run: seq<Action>, lazyFiles: set<string>)
    requires LegalRun(EMPTY_WORLD, st, run)
    requires var h := Run(EMPTY_WORLD, st, run).history;
             h != [] && forall i | 0 <= i < |h| :: SoundEnvelope(h[i].envelope, lazyFiles)
    ensures var w := Run(EMPTY_WORLD, st, run);
            && Accepted(w.disk, lazyFiles)
            && Pending(w.disk, PublishedId(w.disk.manifest)) ==
               (if PublishedId(w.disk.manifest) == |w.history| then {} else {|w.history|})
  {
    EmptyDiskInv(st.options);
    RunKeepsInv(EMPTY_WORLD, st, run);
    var w := Run(EMPTY_WORLD, st, run);
    ReachableWal(w.disk, w.history, st.options);
    Progress(w.disk, w.history, st.options);
    if w.disk.manifest.Some? {
      ReachableLog(w.disk, w.history, st.options);
      ReachableGraph(w.disk, w.history, st.options, lazyFiles);
    }
  }
}
