/** When a commit reads back as written. */
module CommitExactness {
  // Where the guards of crash safety come from: the exact conditions under which a commit reads back as written.

  import opened EncodedGraph
  import opened StorageDisk
  import opened CommitPlan
  import opened CrashInvariant
  import opened WriteTraces
  import opened CommitSafety
  import opened RecoverySafety

  lemma {:induction false} PublishKeepsRecords(d: Disk, ws: seq<Write>)
    requires forall i | 0 <= i < |ws| :: !ws[i].PutBinary? && !ws[i].PutJson?
    ensures ApplyAll(d, ws).records == d.records
    decreases |ws|
  {
    if ws != [] {
      PublishKeepsRecords(Apply(d, ws[0]), ws[1..]);
    }
  }

  lemma {:induction false} LastWriteStands(d: Disk, ws: seq<Write>, m: Manifest)
    ensures ApplyAll(d, ws + [PutManifest(m)]).manifest == Some(m)
  {
    ApplyAllConcat(d, ws, [PutManifest(m)]);
    assert [PutManifest(m)][1..] == [];
  }

  lemma PublishOutcome(d: Disk, o: WriteOptions, p: WalPrepare, versions: map<ObjectId, nat>, metadata: Option<string>)
    ensures var d' := ApplyAll(d, PublishPlan(d.transactions, o, p, versions, metadata));
            && d'.records == d.records && d'.manifest.Some?
            && d'.manifest.value == ManifestOf(p, versions, d'.manifest.value.latestTransactionHash)
  {
    var publish := PublishPlan(d.transactions, o, p, versions, metadata);
    PublishKeepsRecords(d, publish);
    var last := |publish| - 1;
    assert publish[..last] + [publish[last]] == publish;
    LastWriteStands(d, publish[..last], publish[last].manifest);
  }

  /** What a complete commit leaves, whether or not it keeps faith with the nodes it does not write. */
  lemma CommitOutcome(d: Disk, h: History, o: WriteOptions, s: Session, req: CommitRequest, order: WorkerOrder)
    requires Inv(d, h, o) && InStep(d, h, s) && Interleaves(order)
    ensures var p := PrepareOf(|h| + 1, req);
            var d' := ApplyAll(d, CommitWrites(d, o, s, req, order));
            && d'.manifest.Some?
            && d'.manifest.value == ManifestOf(p, VersionsAfter(s, req), d'.manifest.value.latestTransactionHash)
            && RecordsHold(d.records, d'.records, p,
                           ObjectIdsToWrite(s.objectVersions, req.envelope.nodes.Keys, req.objectIds))
  {
    var p := PrepareOf(|h| + 1, req);
    var before := BeforeMarker(o, s, req, order);
    BeforeMarkerSafe(d, h, o, s, req, order);
    var first := ThroughMarker(o, s, req, order);
    var d1 := ApplyAll(d, before);
    var d2 := ApplyAll(d, first);
    ApplyAllConcat(d, before, [PutCommit(MarkerOf(p))]);
    var publish := PublishPlan(d2.transactions, o, p, VersionsAfter(s, req), req.metadata);
    assert CommitWrites(d, o, s, req, order) == first + publish;
    ApplyAllConcat(d, first, publish);
    PublishOutcome(d2, o, p, VersionsAfter(s, req), req.metadata);
  }

  lemma KeptReadsOldNode(d: Disk, d': Disk, h: History, o: WriteOptions, s: Session, req: CommitRequest, id: ObjectId)
    requires Inv(d, h, o) && InStep(d, h, s) && id in req.envelope.nodes && id in s.objectVersions &&
             id !in req.objectIds
    requires RecordsHold(d.records, d'.records, PrepareOf(|h| + 1, req),
                         ObjectIdsToWrite(s.objectVersions, req.envelope.nodes.Keys, req.objectIds))
    ensures id in LastEnvelope(h).nodes
    ensures ReadObject(d'.records, id, VersionsAfter(s, req)[id]) ==
            Some(ObjectRecord(id, s.objectVersions[id], LastEnvelope(h).nodes[id]))
  {
    SessionRecorded(d, h, o, s, id);
  }

  /** The node read back for `id`: the old one where it was kept, the new one where it was written. */
  lemma ReadAfterCommit(d: Disk, d': Disk, h: History, o: WriteOptions, s: Session, req: CommitRequest, m: Manifest,
                        id: ObjectId)
    requires Inv(d, h, o) && InStep(d, h, s) && id in req.envelope.nodes
    requires m == ManifestOf(PrepareOf(|h| + 1, req), VersionsAfter(s, req), m.latestTransactionHash)
    requires RecordsHold(d.records, d'.records, PrepareOf(|h| + 1, req),
                         ObjectIdsToWrite(s.objectVersions, req.envelope.nodes.Keys, req.objectIds))
    ensures var kept := id in s.objectVersions && id !in req.objectIds;
            var r := ReadObject(d'.records, id, ManifestVersions(m)[id]);
            && (kept ==> id in LastEnvelope(h).nodes)
            && r.Some? && r.value.node == if kept then LastEnvelope(h).nodes[id] else req.envelope.nodes[id]
  {
    if id in s.objectVersions && id !in req.objectIds {
      KeptReadsOldNode(d, d', h, o, s, req, id);
    }
  }

  /**
   * A complete commit loads back through its manifest as the envelope it was given if and only if the nodes it
   * keeps at an older version are unchanged since the base transaction.
   */
  lemma CommitReadsBackIff(d: Disk, h: History, o: WriteOptions, s: Session, req: CommitRequest, order: WorkerOrder)
    requires Inv(d, h, o) && InStep(d, h, s) && Interleaves(order)
    ensures var d' := ApplyAll(d, CommitWrites(d, o, s, req, order));
            && d'.manifest.Some?
            && (EnvelopeFromManifest(d'.records, d'.manifest.value) == Some(req.envelope) <==>
                KeepsUnwritten(LastEnvelope(h), s.objectVersions, req))
  {
    var d' := ApplyAll(d, CommitWrites(d, o, s, req, order));
    CommitOutcome(d, h, o, s, req, order);
    var m := d'.manifest.value;
    forall id | id in req.envelope.nodes
      ensures var kept := id in s.objectVersions && id !in req.objectIds;
              var r := ReadObject(d'.records, id, ManifestVersions(m)[id]);
              && (kept ==> id in LastEnvelope(h).nodes)
              && r.Some? && r.value.node == if kept then LastEnvelope(h).nodes[id] else req.envelope.nodes[id]
    {
      ReadAfterCommit(d, d', h, o, s, req, m, id);
    }
    ReadsBackIff(d'.records, m, req.envelope);
  }

  lemma ReadsBackIff(rs: Records, m: Manifest, e: Envelope)
    requires m.root == e.root && m.objectIds == e.nodes.Keys
    requires forall id | id in e.nodes :: ReadObject(rs, id, ManifestVersions(m)[id]).Some?
    ensures EnvelopeFromManifest(rs, m) == Some(e) <==>
            forall id | id in e.nodes :: ReadObject(rs, id, ManifestVersions(m)[id]).value.node == e.nodes[id]
  {
    var nodes := map id | id in m.objectIds :: ReadObject(rs, id, ManifestVersions(m)[id]).value.node;
    assert EnvelopeFromManifest(rs, m) == Some(Envelope(m.root, nodes));
    if nodes == e.nodes {
      forall id | id in e.nodes ensures ReadObject(rs, id, ManifestVersions(m)[id]).value.node == e.nodes[id] {
        assert nodes[id] == e.nodes[id];
      }
    }
  }

  /** Eager commits, the only kind `transaction` makes, always meet the condition. */
  lemma EagerKeepsUnwritten(base: Envelope, versions: map<ObjectId, nat>, req: CommitRequest)
    requires req.objectIds == req.envelope.nodes.Keys
    ensures KeepsUnwritten(base, versions, req)
  {
  }

  /**
   * A written record is readable if and only if no stale binary file shadows it: a JSON-only writer does not
   * replace the binary file an unfinished commit of the same number may have left, and readers prefer that file.
   */
  lemma RecordReadableIff(d: Disk, e: Envelope, n: nat, ids: set<ObjectId>, format: RecordFormat, order: WorkerOrder,
                          id: ObjectId)
    requires Interleaves(order) && id in ids && id in e.nodes
    ensures var rs := ApplyAll(d, order(ObjectWrites(e, n, ids, format))).records;
            var key := RecordKey(id, n);
            ReadObject(rs, id, n) == Some(RecordOf(e, n, id)) <==>
              (format.JsonOnly? && key in d.records.binary ==> d.records.binary[key] == RecordOf(e, n, id))
  {
    var writes := ObjectWrites(e, n, ids, format);
    var r := RecordOf(e, n, id);
    assert format.JsonOnly? ==> PutJson(r) in writes && PutBinary(r) !in writes;
    assert !format.JsonOnly? ==> PutBinary(r) in writes;
    RecordWritten(d, order(writes), r);
  }

  /** What a commit means to write of the node under an id. */
  ghost predicate Writes(s: Session, req: CommitRequest, r: ObjectRecord) {
    && r.objectId in req.envelope.nodes && r.node == req.envelope.nodes[r.objectId]
    && r.transactionId == s.transactionId + 1
    && (r.objectId in req.objectIds || r.objectId !in s.objectVersions)
  }

  lemma NoOtherRecords(d: Disk, o: WriteOptions, s: Session, req: CommitRequest, order: WorkerOrder, w: Write)
    requires Interleaves(order) && (w.PutBinary? || w.PutJson?)
    ensures w in CommitWrites(d, o, s, req, order) <==>
            w in ObjectWrites(req.envelope, s.transactionId + 1,
                              ObjectIdsToWrite(s.objectVersions, req.envelope.nodes.Keys, req.objectIds), o.format)
  {
    var ids := ObjectIdsToWrite(s.objectVersions, req.envelope.nodes.Keys, req.objectIds);
    var ws := ObjectWrites(req.envelope, s.transactionId + 1, ids, o.format);
    assert w in order(ws) <==> w in ws;
    assert w in BeforeMarker(o, s, req, order) <==> w in order(ws);
    assert w !in PublishPart(d, o, s, req, order);
  }

  /** A commit writes the records of the requested and the new nodes, in the format asked for, and no others. */
  lemma CommitWritesRecords(d: Disk, o: WriteOptions, s: Session, req: CommitRequest, order: WorkerOrder,
                            r: ObjectRecord)
    requires Interleaves(order)
    ensures PutBinary(r) in CommitWrites(d, o, s, req, order) <==> Writes(s, req, r) && o.format != JsonOnly
    ensures PutJson(r) in CommitWrites(d, o, s, req, order) <==> Writes(s, req, r) && o.format != BinaryOnly
  {
    NoOtherRecords(d, o, s, req, order, PutBinary(r));
    NoOtherRecords(d, o, s, req, order, PutJson(r));
  }

  // One input for each way in which a commit does not read back.

  function OneNode(node: EncodedNode): Envelope {
    Envelope(Ref(0), map[0 := node])
  }

  /** A JSON-only record beside a binary file of the same number that an unfinished commit left behind. */
  lemma StaleBinaryShadows(order: WorkerOrder)
    requires Interleaves(order)
    ensures var stale := Records(map[RecordKey(0, 1) := ObjectRecord(0, 1, SetNode([]))], map[]);
            var d := EMPTY_DISK.(records := stale);
            var rs := ApplyAll(d, order(ObjectWrites(OneNode(ArrayNode([])), 1, {0}, JsonOnly))).records;
            ReadObject(rs, 0, 1) != Some(RecordOf(OneNode(ArrayNode([])), 1, 0))
  {
    var stale := Records(map[RecordKey(0, 1) := ObjectRecord(0, 1, SetNode([]))], map[]);
    RecordReadableIff(EMPTY_DISK.(records := stale), OneNode(ArrayNode([])), 1, {0}, JsonOnly, order, 0);
  }

  function Eagerly(e: Envelope): CommitRequest {
    CommitRequest(e, Eager, e.nodes.Keys, 0, None, 0, false)
  }

  function Keeping(e: Envelope): CommitRequest {
    CommitRequest(e, Standard, {}, 0, None, 0, false)
  }

  /** An array stored by a first commit, replaced in memory by a set, and not written by the second commit. */
  lemma ChangedNodeIsLost(o: WriteOptions, order: WorkerOrder)
    requires Interleaves(order)
    ensures var first, second := Eagerly(OneNode(ArrayNode([]))), Keeping(OneNode(SetNode([])));
            var start := Session(0, map[], 0);
            var d1 := ApplyAll(EMPTY_DISK, CommitWrites(EMPTY_DISK, o, start, first, order));
            var d2 := ApplyAll(d1, CommitWrites(d1, o, Session(1, VersionsAfter(start, first), 0), second, order));
            d2.manifest.Some? && EnvelopeFromManifest(d2.records, d2.manifest.value) != Some(second.envelope)
  {
    var first, second, start := Eagerly(OneNode(ArrayNode([]))), Keeping(OneNode(SetNode([]))), Session(0, map[], 0);
    EmptyDiskInv(o);
    var d1 := ApplyAll(EMPTY_DISK, CommitWrites(EMPTY_DISK, o, start, first, order));
    var h: History := [PrepareOf(1, first)];
    CommitSafe(EMPTY_DISK, [], o, start, first, order);
    assert CommitWrites(EMPTY_DISK, o, start, first, order) ==
           ThroughMarker(o, start, first, order) + PublishPart(EMPTY_DISK, o, start, first, order);
    ApplyAllConcat(EMPTY_DISK, ThroughMarker(o, start, first, order), PublishPart(EMPTY_DISK, o, start, first, order));
    assert [] + h == h;
    var s := Session(1, VersionsAfter(start, first), 0);
    assert 0 in second.envelope.nodes && 0 in s.objectVersions && 0 !in second.objectIds;
    assert LastEnvelope(h).nodes[0] != second.envelope.nodes[0];
    CommitReadsBackIff(d1, h, o, s, second, order);
  }
}
