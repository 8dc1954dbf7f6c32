/**
 * The ordered target writes of one commit and of recovery, and what loading reads back.
 * `WorkerOrder` stands for the order in which the concurrent record writers finish.
 */
module CommitPlan {
  import opened EncodedGraph
  import opened StorageDisk

  datatype RecordFormat = BinaryOnly | JsonOnly | BinaryAndJson

  datatype WriteOptions = WriteOptions(format: RecordFormat, writeSnapshots: bool)

  /** What a started manager remembers of the store: the last transaction and each object's version. */
  datatype Session = Session(transactionId: nat, objectVersions: map<ObjectId, nat>, schemaVersion: nat)

  datatype CommitRequest = CommitRequest(
    envelope: Envelope, mode: StoreMode, objectIds: set<ObjectId>, targetCount: nat,
    metadata: Option<string>, schemaVersion: nat, typesChanged: bool)

  type WorkerOrder = set<Write> -> seq<Write>

  /** Some interleaving of the workers: every pending record is written, and nothing else. */
  ghost predicate Interleaves(order: WorkerOrder) {
    forall ws: set<Write>, w: Write :: w in order(ws) <==> w in ws
  }

  function ObjectIdsToWrite(base: map<ObjectId, nat>, all: set<ObjectId>, requested: set<ObjectId>): set<ObjectId> {
    requested + (all - base.Keys)
  }

  function NextObjectVersions(base: map<ObjectId, nat>, all: set<ObjectId>, written: set<ObjectId>, n: nat)
    : map<ObjectId, nat>
  {
    map id | id in all :: if id in written || id !in base then n else base[id]
  }

  function UniformVersions(e: Envelope, n: nat): map<ObjectId, nat> {
    map id | id in e.nodes :: n
  }

  function RecordOf(e: Envelope, n: nat, id: ObjectId): ObjectRecord
    requires id in e.nodes
  {
    ObjectRecord(id, n, e.nodes[id])
  }

  /** The record writes of one commit. An id without a node is skipped. */
  function ObjectWrites(e: Envelope, n: nat, ids: set<ObjectId>, format: RecordFormat): set<Write> {
    (if format.JsonOnly? then {} else set id | id in ids && id in e.nodes :: PutBinary(RecordOf(e, n, id))) +
    (if format.BinaryOnly? then {} else set id | id in ids && id in e.nodes :: PutJson(RecordOf(e, n, id)))
  }

  function PrepareOf(n: nat, req: CommitRequest): WalPrepare {
    WalPrepare(n, n, req.envelope.nodes.Keys, req.mode, req.targetCount, req.envelope, req.schemaVersion)
  }

  function MarkerOf(p: WalPrepare): WalCommit {
    WalCommit(p.transactionId, p.transactionId, p.schemaVersion)
  }

  /** Everything a commit writes before its WAL commit marker. */
  function BeforeMarker(options: WriteOptions, s: Session, req: CommitRequest, order: WorkerOrder): seq<Write> {
    var n := s.transactionId + 1;
    var ids := ObjectIdsToWrite(s.objectVersions, req.envelope.nodes.Keys, req.objectIds);
    [PutPrepare(PrepareOf(n, req))] +
    order(ObjectWrites(req.envelope, n, ids, options.format)) +
    (if req.typesChanged then [PutDerived(TypeDictionary, n)] else []) +
    (if options.writeSnapshots then [PutSnapshot(n, req.envelope)] else [])
  }

  ghost function PreviousHash(log: Log, n: nat): Option<Digest> {
    var latest := LatestTransaction(log);
    if latest.Some? && latest.value.payload.transactionId < n then Some(latest.value.transactionHash) else None
  }

  ghost function FreshRecord(log: Log, p: WalPrepare, metadata: Option<string>): TransactionRecord {
    var payload := TransactionPayload(
                     p.transactionId, p.snapshotFile, p.envelope.nodes.Keys, p.mode, p.targetCount, metadata,
                     EnvelopeDigest(p.envelope), PreviousHash(log, p.transactionId), p.schemaVersion);
    TransactionRecord(payload, TransactionDigest(payload))
  }

  /** The transaction record being published: the one already on disk under this number, else a new one. */
  ghost function PublishedRecord(log: Log, p: WalPrepare, metadata: Option<string>): TransactionRecord {
    var latest := LatestTransaction(log);
    if latest.Some? && latest.value.payload.transactionId == p.transactionId then latest.value
    else FreshRecord(log, p, metadata)
  }

  function ManifestOf(p: WalPrepare, versions: map<ObjectId, nat>, hash: Digest): Manifest {
    Manifest(p.transactionId, p.envelope.root, p.envelope.nodes.Keys, versions, hash, p.schemaVersion)
  }

  /** `publishPreparedCommit`: the transaction record first, the manifest last. */
  ghost function PublishPlan(log: Log, options: WriteOptions, p: WalPrepare, versions: map<ObjectId, nat>,
                             metadata: Option<string>)
    : seq<Write>
  {
    var latest := LatestTransaction(log);
    var record := PublishedRecord(log, p, metadata);
    var n := p.transactionId;
    (if latest.Some? && latest.value.payload.transactionId == n then []
     else [PutTransaction(record), PutDerived(Journal, n)]) +
    [PutDerived(ParentIndex, n), PutDerived(ConstraintRecord, n), PutDerived(PersistentIndex, n)] +
    (if options.writeSnapshots then [PutCurrent(p.snapshotFile)] else []) +
    [PutManifest(ManifestOf(p, versions, record.transactionHash))]
  }

  function VersionsAfter(s: Session, req: CommitRequest): map<ObjectId, nat> {
    NextObjectVersions(s.objectVersions, req.envelope.nodes.Keys, req.objectIds, s.transactionId + 1)
  }

  /** The commit up to and including its marker. */
  function ThroughMarker(options: WriteOptions, s: Session, req: CommitRequest, order: WorkerOrder): seq<Write> {
    BeforeMarker(options, s, req, order) + [PutCommit(MarkerOf(PrepareOf(s.transactionId + 1, req)))]
  }

  /** What a commit publishes once its marker stands. */
  ghost function PublishPart(d: Disk, o: WriteOptions, s: Session, req: CommitRequest, order: WorkerOrder): seq<Write> {
    PublishPlan(ApplyAll(d, ThroughMarker(o, s, req, order)).transactions, o, PrepareOf(s.transactionId + 1, req),
                VersionsAfter(s, req), req.metadata)
  }

  ghost function CommitWrites(d: Disk, options: WriteOptions, s: Session, req: CommitRequest,
                              order: WorkerOrder): seq<Write> {
    ThroughMarker(options, s, req, order) + PublishPart(d, options, s, req, order)
  }

  /** The prepared record a commit marker names, when it is there and carries the marker's number. */
  function PreparedFor(d: Disk, c: WalCommit): Option<WalPrepare> {
    if c.prepareFile in d.prepares && d.prepares[c.prepareFile].transactionId == c.transactionId
    then Some(d.prepares[c.prepareFile]) else None
  }

  ghost predicate AlreadyPublished(d: Disk, n: nat) {
    PublishedId(d.manifest) >= n && LatestTransactionId(d.transactions) >= n
  }

  /** The record and snapshot writes that precede publication of a recovered transaction. */
  function RestoreWrites(options: WriteOptions, p: WalPrepare, order: WorkerOrder): seq<Write> {
    order(ObjectWrites(p.envelope, p.transactionId, p.objectIds, options.format)) +
    (if options.writeSnapshots then [PutSnapshot(p.snapshotFile, p.envelope)] else [])
  }

  /** One round of the recovery loop; a published or unprepared commit is skipped. */
  ghost function RecoverOne(d: Disk, options: WriteOptions, c: WalCommit, order: WorkerOrder): seq<Write> {
    var p := PreparedFor(d, c);
    if AlreadyPublished(d, c.transactionId) || p.None? then [] else
      var first := RestoreWrites(options, p.value, order);
      first + PublishPlan(ApplyAll(d, first).transactions, options, p.value,
                          UniformVersions(p.value.envelope, p.value.transactionId), None)
  }

  ghost function RecoverAll(d: Disk, options: WriteOptions, commits: seq<WalCommit>, order: WorkerOrder): seq<Write>
    decreases |commits|
  {
    if commits == [] then [] else
      var first := RecoverOne(d, options, commits[0], order);
      first + RecoverAll(ApplyAll(d, first), options, commits[1..], order)
  }

  /** The readable commit markers numbered `1..n`, ascending. */
  function CommitsUpTo(d: Disk, n: nat): seq<WalCommit> {
    if n == 0 then [] else
      CommitsUpTo(d, n - 1) + (if n in d.commits then [d.commits[n]] else [])
  }

  ghost function RecoveryWrites(d: Disk, options: WriteOptions, order: WorkerOrder): seq<Write> {
    RecoverAll(d, options, CommitsUpTo(d, Highest(d.commits.Keys)), order)
  }

  datatype Source = FromManifest | FromSnapshot | FromWal

  datatype Loaded =
    | Empty
    | Unreadable
    | Loaded(source: Source, envelope: Envelope, session: Session)

  /** The newest committed WAL entry numbered at most `n` whose prepare record is present. */
  function LatestWal(d: Disk, n: nat): Option<WalPrepare> {
    if n == 0 then None
    else if n in d.commits && PreparedFor(d, d.commits[n]).Some? then PreparedFor(d, d.commits[n])
    else LatestWal(d, n - 1)
  }

  /** Absent versions default to the manifest's own transaction. */
  function ManifestVersions(m: Manifest): map<ObjectId, nat> {
    map id | id in m.objectIds :: if id in m.objectVersions then m.objectVersions[id] else m.transactionId
  }

  predicate Readable(rs: Records, m: Manifest) {
    forall id | id in m.objectIds :: ReadObject(rs, id, ManifestVersions(m)[id]).Some?
  }

  function EnvelopeFromManifest(rs: Records, m: Manifest): Option<Envelope> {
    if Readable(rs, m)
    then Some(Envelope(m.root, map id | id in m.objectIds :: ReadObject(rs, id, ManifestVersions(m)[id]).value.node))
    else None
  }

  function LoadSnapshot(d: Disk): Loaded {
    if d.current.None? then Empty
    else if d.current.value !in d.snapshots then Unreadable
    else
      var n := d.current.value;
      var e := d.snapshots[n];
      Loaded(FromSnapshot, e,
             Session(n, UniformVersions(e, n), if n in d.transactions then d.transactions[n].payload.schemaVersion
                     else 0))
  }

  /** `loadExistingEnvelope`: a newer committed WAL entry, then the manifest, then the CURRENT snapshot. */
  ghost function Load(d: Disk): Loaded {
    var wal := LatestWal(d, Highest(d.commits.Keys));
    var latest := LatestTransaction(d.transactions);
    if wal.Some? && wal.value.transactionId > PublishedId(d.manifest) then
      var p := wal.value;
      Loaded(FromWal, p.envelope, Session(p.transactionId, UniformVersions(p.envelope, p.transactionId),
                                          p.schemaVersion))
    else if d.manifest.None? then LoadSnapshot(d)
    else
      var m := d.manifest.value;
      if latest.Some? && latest.value.payload.transactionId > m.transactionId then LoadSnapshot(d)
      else if EnvelopeFromManifest(d.records, m).None? then LoadSnapshot(d)
      else Loaded(FromManifest, EnvelopeFromManifest(d.records, m).value,
                  Session(m.transactionId, ManifestVersions(m), m.schemaVersion))
  }

  /** The session a manager works in once it has loaded; an empty store starts at the application's schema version. */
  function SessionAfter(l: Loaded, targetSchema: nat): Session {
    match l
    case Loaded(_, _, s) => s
    case _ => Session(0, map[], targetSchema)
  }
}
