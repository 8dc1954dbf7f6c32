/** The storage target as a value. */
module StorageDisk {
  // The storage target as a value: every file the commit protocol reads or replaces, and its atomic writes.

  import opened EncodedGraph

  datatype StoreMode = Standard | Eager | LazyMode

  datatype ObjectRecord = ObjectRecord(objectId: ObjectId, transactionId: nat, node: EncodedNode)

  /** The name of an object record file: `<id>.<version>`. */
  datatype RecordKey = RecordKey(objectId: ObjectId, version: nat)

  datatype WalPrepare = WalPrepare(
    transactionId: nat, snapshotFile: nat, objectIds: set<ObjectId>, mode: StoreMode,
    targetCount: nat, envelope: Envelope, schemaVersion: nat)

  datatype WalCommit = WalCommit(transactionId: nat, prepareFile: nat, schemaVersion: nat)

  /** SHA-256 as a free, hence injective, constructor. */
  datatype Digest = EnvelopeDigest(envelope: Envelope) | TransactionDigest(payload: TransactionPayload)

  datatype TransactionPayload = TransactionPayload(
    transactionId: nat, snapshotFile: nat, objectIds: set<ObjectId>, mode: StoreMode, targetCount: nat,
    metadata: Option<string>, envelopeHash: Digest, previousHash: Option<Digest>, schemaVersion: nat)

  datatype TransactionRecord = TransactionRecord(payload: TransactionPayload, transactionHash: Digest)

  datatype Manifest = Manifest(
    transactionId: nat, root: EncodedValue, objectIds: set<ObjectId>, objectVersions: map<ObjectId, nat>,
    latestTransactionHash: Digest, schemaVersion: nat)

  /** Files rewritten on every publication that recovery never reads. */
  datatype DerivedFile = TypeDictionary | Journal | ParentIndex | ConstraintRecord | PersistentIndex

  /** The object record files of either format. */
  datatype Records = Records(binary: map<RecordKey, ObjectRecord>, json: map<RecordKey, ObjectRecord>)

  datatype Disk = Disk(
    prepares: map<nat, WalPrepare>,
    commits: map<nat, WalCommit>,
    records: Records,
    snapshots: map<nat, Envelope>,
    transactions: Log,
    current: Option<nat>,
    manifest: Option<Manifest>,
    derived: map<DerivedFile, nat>)

  const EMPTY_DISK := Disk(map[], map[], Records(map[], map[]), map[], map[], None, None, map[])

  datatype Write =
    | PutPrepare(prepare: WalPrepare)
    | PutCommit(commit: WalCommit)
    | PutBinary(record: ObjectRecord)
    | PutJson(record: ObjectRecord)
    | PutSnapshot(file: nat, envelope: Envelope)
    | PutTransaction(transaction: TransactionRecord)
    | PutCurrent(file: nat)
    | PutManifest(manifest: Manifest)
    | PutDerived(derivedFile: DerivedFile, transactionId: nat)

  function KeyOf(r: ObjectRecord): RecordKey {
    RecordKey(r.objectId, r.transactionId)
  }

  /** One atomic replacement of a target object. */
  function Apply(d: Disk, w: Write): Disk {
    match w
    case PutPrepare(p) => d.(prepares := d.prepares[p.transactionId := p])
    case PutCommit(c) => d.(commits := d.commits[c.transactionId := c])
    case PutBinary(r) => d.(records := d.records.(binary := d.records.binary[KeyOf(r) := r]))
    case PutJson(r) => d.(records := d.records.(json := d.records.json[KeyOf(r) := r]))
    case PutSnapshot(n, e) => d.(snapshots := d.snapshots[n := e])
    case PutTransaction(t) => d.(transactions := d.transactions[t.payload.transactionId := t])
    case PutCurrent(n) => d.(current := Some(n))
    case PutManifest(m) => d.(manifest := Some(m))
    case PutDerived(f, n) => d.(derived := d.derived[f := n])
  }

  function ApplyAll(d: Disk, ws: seq<Write>): Disk
    decreases |ws|
  {
    if ws == [] then d else ApplyAll(Apply(d, ws[0]), ws[1..])
  }

  lemma {:induction false} ApplyAllConcat(d: Disk, a: seq<Write>, b: seq<Write>)
    ensures ApplyAll(d, a + b) == ApplyAll(ApplyAll(d, a), b)
    decreases |a|
  {
    if a == [] {
      assert a + b == b;
    } else {
      assert (a + b)[1..] == a[1..] + b;
      ApplyAllConcat(Apply(d, a[0]), a[1..], b);
    }
  }

  /** What a process that dies after `left` more writes leaves behind when it means to perform `ws`. */
  function Cut(ws: seq<Write>, left: nat): seq<Write> {
    if left < |ws| then ws[..left] else ws
  }

  /** The largest of a set of transaction numbers, 0 when there is none. */
  ghost function Highest(keys: set<nat>): (h: nat)
    ensures keys == {} ==> h == 0
    ensures keys != {} ==> h in keys
    ensures forall k :: k in keys ==> k <= h
  {
    if keys == {} then 0 else
      var k :| k in keys;
      var rest := Highest(keys - {k});
      assert forall j :: j in keys ==> j == k || j in keys - {k};
      if rest > k then rest else k
  }

  /** `readObjectRecord`: the binary file wins, then the JSON file. */
  function ReadObject(rs: Records, id: ObjectId, version: nat): Option<ObjectRecord> {
    var key := RecordKey(id, version);
    if key in rs.binary then Some(rs.binary[key])
    else if key in rs.json then Some(rs.json[key])
    else None
  }

  type Log = map<nat, TransactionRecord>

  ghost function LatestTransaction(log: Log): Option<TransactionRecord> {
    var h := Highest(log.Keys);
    if h in log then Some(log[h]) else None
  }

  ghost function LatestTransactionId(log: Log): nat {
    var latest := LatestTransaction(log);
    if latest.Some? then latest.value.payload.transactionId else 0
  }

  function PublishedId(m: Option<Manifest>): nat {
    if m.Some? then m.value.transactionId else 0
  }
}
