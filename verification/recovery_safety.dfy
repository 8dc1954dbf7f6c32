/** Commit, load and recovery on any valid disk. */
module RecoverySafety {
  import opened EncodedGraph
  import opened StorageDisk
  import opened CommitPlan
  import opened CrashInvariant
  import opened WriteTraces
  import opened CommitSafety

  lemma WalFacts(d: Disk, h: History, o: WriteOptions, n: nat)
    requires Inv(d, h, o) && 1 <= n <= |h|
    ensures ValidPrepare(h[n - 1], n)
    ensures n in d.commits && d.commits[n] == MarkerOf(h[n - 1]) && PreparedFor(d, d.commits[n]) == Some(h[n - 1])
  {
    InvParts(d, h, o);
  }

  /** How far publication and the log may trail the history. */
  lemma Progress(d: Disk, h: History, o: WriteOptions)
    requires Inv(d, h, o)
    ensures |h| - 1 <= PublishedId(d.manifest) <= LatestTransactionId(d.transactions) <= |h|
    ensures Highest(d.commits.Keys) == |h|
  {
    InvParts(d, h, o);
    LatestIsLogEnd(d.transactions, h);
    HighestIs(d.commits.Keys, |h|);
  }

  /** The nodes a commit leaves at their old version are those of the envelope it starts from. */
  predicate KeepsUnwritten(base: Envelope, versions: map<ObjectId, nat>, req: CommitRequest) {
    forall id | id in req.envelope.nodes && id in versions && id !in req.objectIds ::
      id in base.nodes && base.nodes[id] == req.envelope.nodes[id]
  }

  /** The session is in step with the store: it holds the versions the manifest names, and its schema version. */
  ghost predicate InStep(d: Disk, h: History, s: Session) {
    && Quiescent(d, h) && s.transactionId == |h|
    && (d.manifest.Some? ==> s.schemaVersion == d.manifest.value.schemaVersion)
    && s.objectVersions == if d.manifest.Some? then d.manifest.value.objectVersions else map[]
  }

  function LastEnvelope(h: History): Envelope {
    if h == [] then Envelope(Null, map[]) else h[|h| - 1].envelope
  }

  lemma ManifestFacts(d: Disk, h: History, o: WriteOptions)
    requires Inv(d, h, o) && Quiescent(d, h) && h != []
    ensures d.manifest.Some?
    ensures var m, p := d.manifest.value, h[|h| - 1];
            m == ManifestOf(p, m.objectVersions, m.latestTransactionHash) &&
            VersionsInv(d.records, h, p, m.objectVersions)
  {
    InvParts(d, h, o);
  }

  lemma PublishedIsPositive(d: Disk, h: History, o: WriteOptions)
    requires Inv(d, h, o) && d.manifest.Some?
    ensures d.manifest.value.transactionId >= 1
  {
    InvParts(d, h, o);
  }

  lemma SessionRecorded(d: Disk, h: History, o: WriteOptions, s: Session, id: ObjectId)
    requires Inv(d, h, o) && InStep(d, h, s) && id in s.objectVersions
    ensures id in LastEnvelope(h).nodes && s.objectVersions[id] <= |h|
    ensures Recorded(d.records, h, id, s.objectVersions[id], LastEnvelope(h).nodes[id])
  {
    PublishedIsPositive(d, h, o);
    ManifestFacts(d, h, o);
    WalFacts(d, h, o, |h|);
  }

  /** The version map of a commit names, for each id, a record holding the node the commit gives it. */
  lemma CommitVersions(d: Disk, d1: Disk, h: History, o: WriteOptions, s: Session, req: CommitRequest)
    requires Inv(d, h, o) && InStep(d, h, s) && KeepsUnwritten(LastEnvelope(h), s.objectVersions, req)
    requires RecordsHold(d.records, d1.records, PrepareOf(|h| + 1, req),
                         ObjectIdsToWrite(s.objectVersions, req.envelope.nodes.Keys, req.objectIds))
    ensures var p := PrepareOf(|h| + 1, req);
            VersionsInv(d1.records, h + [p], p, VersionsAfter(s, req))
  {
    var p := PrepareOf(|h| + 1, req);
    var versions := VersionsAfter(s, req);
    forall id | id in versions
      ensures versions[id] <= p.transactionId && Recorded(d1.records, h + [p], id, versions[id], p.envelope.nodes[id])
    {
      if id in s.objectVersions && id !in req.objectIds {
        SessionRecorded(d, h, o, s, id);
        var v := s.objectVersions[id];
        assert (h + [p])[v - 1] == h[v - 1];
      }
    }
  }

  /**
   * A commit keeps the invariant between any two of its writes: for the old history up to its marker, for the
   * extended one from the marker on. Complete, it leaves nothing pending.
   */
  lemma CommitSafe(d: Disk, h: History, o: WriteOptions, s: Session, req: CommitRequest, order: WorkerOrder)
    requires Inv(d, h, o) && InStep(d, h, s) && Interleaves(order)
    requires KeepsUnwritten(LastEnvelope(h), s.objectVersions, req)
    ensures var p := PrepareOf(|h| + 1, req);
            var before := BeforeMarker(o, s, req, order);
            var first := ThroughMarker(o, s, req, order);
            var d2 := ApplyAll(d, first);
            var publish := PublishPart(d, o, s, req, order);
            var d3 := ApplyAll(d2, publish);
            && Throughout(d, before, Invariant(h, o))
            && Throughout(d2, publish, Invariant(h + [p], o))
            && Inv(d3, h + [p], o) && Quiescent(d3, h + [p])
            && d3.manifest.Some? && d3.manifest.value.objectVersions == VersionsAfter(s, req)
            && d3.manifest.value.schemaVersion == req.schemaVersion
  {
    var p := PrepareOf(|h| + 1, req);
    var before := BeforeMarker(o, s, req, order);
    BeforeMarkerSafe(d, h, o, s, req, order);
    var d1 := ApplyAll(d, before);
    var marker := PutCommit(MarkerOf(p));
    StepMarker(d1, h, o, p);
    ApplyAllConcat(d, before, [marker]);
    var d2 := ApplyAll(d, ThroughMarker(o, s, req, order));
    assert d2 == Apply(d1, marker);
    CommitVersions(d, d1, h, o, s, req);
    PublishSafe(d2, h + [p], o, VersionsAfter(s, req), req.metadata);
    assert (h + [p])[|h|] == p;
    assert PublishPart(d, o, s, req, order) == PublishPlan(d2.transactions, o, p, VersionsAfter(s, req), req.metadata);
  }

  lemma LatestWalIsLast(d: Disk, h: History, o: WriteOptions)
    requires Inv(d, h, o)
    ensures LatestWal(d, Highest(d.commits.Keys)) == if h == [] then None else Some(h[|h| - 1])
  {
    Progress(d, h, o);
    if h != [] {
      WalFacts(d, h, o, |h|);
    }
  }

  lemma ManifestReadsBack(rs: Records, h: History, p: WalPrepare, m: Manifest)
    requires VersionsInv(rs, h, p, m.objectVersions)
    requires m.root == p.envelope.root && m.objectIds == p.envelope.nodes.Keys
    ensures ManifestVersions(m) == m.objectVersions
    ensures EnvelopeFromManifest(rs, m) == Some(p.envelope)
  {
    forall id | id in m.objectIds
      ensures ReadObject(rs, id, ManifestVersions(m)[id]) ==
              Some(ObjectRecord(id, m.objectVersions[id], p.envelope.nodes[id]))
    {
      assert Recorded(rs, h, id, m.objectVersions[id], p.envelope.nodes[id]);
    }
    var nodes := map id | id in m.objectIds :: ReadObject(rs, id, ManifestVersions(m)[id]).value.node;
    assert nodes == p.envelope.nodes;
  }

  /** Loading any disk the protocol can leave behind yields exactly the last committed envelope, or an empty store. */
  lemma LoadExact(d: Disk, h: History, o: WriteOptions)
    requires Inv(d, h, o)
    ensures h == [] ==> Load(d) == Empty
    ensures h != [] ==>
              && Load(d).Loaded? && Load(d).envelope == h[|h| - 1].envelope
              && Load(d).session.transactionId == |h| && Load(d).session.schemaVersion == h[|h| - 1].schemaVersion
    ensures h != [] && Quiescent(d, h) ==> Load(d).source == FromManifest && InStep(d, h, Load(d).session)
  {
    LatestWalIsLast(d, h, o);
    Progress(d, h, o);
    if h == [] {
      InvParts(d, h, o);
    } else {
      WalFacts(d, h, o, |h|);
      if Quiescent(d, h) {
        ManifestFacts(d, h, o);
        ManifestReadsBack(d.records, h, h[|h| - 1], d.manifest.value);
      }
    }
  }

  lemma SkipPublished(d: Disk, o: WriteOptions, c: WalCommit, rest: seq<WalCommit>, order: WorkerOrder)
    requires AlreadyPublished(d, c.transactionId)
    ensures RecoverAll(d, o, [c] + rest, order) == RecoverAll(d, o, rest, order)
  {
    var cs := [c] + rest;
    assert cs[0] == c && cs[1..] == rest;
    assert RecoverOne(d, o, cs[0], order) == [];
    assert ApplyAll(d, []) == d;
  }

  lemma {:induction false} SkipAllPublished(d: Disk, o: WriteOptions, cs: seq<WalCommit>, rest: seq<WalCommit>,
                                            order: WorkerOrder)
    requires forall i | 0 <= i < |cs| :: AlreadyPublished(d, cs[i].transactionId)
    ensures RecoverAll(d, o, cs + rest, order) == RecoverAll(d, o, rest, order)
    decreases |cs|
  {
    if cs == [] {
      assert cs + rest == rest;
    } else {
      assert cs + rest == [cs[0]] + (cs[1..] + rest);
      SkipPublished(d, o, cs[0], cs[1..] + rest, order);
      SkipAllPublished(d, o, cs[1..], rest, order);
    }
  }

  lemma {:induction false} CommitsUpToNumbers(d: Disk, h: History, o: WriteOptions, n: nat)
    requires Inv(d, h, o) && n <= |h|
    ensures forall i | 0 <= i < |CommitsUpTo(d, n)| :: CommitsUpTo(d, n)[i].transactionId <= n
    decreases n
  {
    if n > 0 {
      WalFacts(d, h, o, n);
      CommitsUpToNumbers(d, h, o, n - 1);
    }
  }

  /** Every transaction but the last is published already, so recovery passes over it. */
  lemma RecoverySkips(d: Disk, h: History, o: WriteOptions, order: WorkerOrder, n: nat, rest: seq<WalCommit>)
    requires Inv(d, h, o) && n <= |h| && n <= PublishedId(d.manifest)
    ensures RecoverAll(d, o, CommitsUpTo(d, n) + rest, order) == RecoverAll(d, o, rest, order)
  {
    Progress(d, h, o);
    CommitsUpToNumbers(d, h, o, n);
    SkipAllPublished(d, o, CommitsUpTo(d, n), rest, order);
  }

  /** The writes of recovery: none, or the restoration and publication of the last transaction. */
  ghost function PendingWrites(d: Disk, h: History, o: WriteOptions, order: WorkerOrder): seq<Write>
    requires h != []
  {
    var p := h[|h| - 1];
    var first := RestoreWrites(o, p, order);
    first + PublishPlan(ApplyAll(d, first).transactions, o, p, UniformVersions(p.envelope, p.transactionId), None)
  }

  lemma RecoveryIsPending(d: Disk, h: History, o: WriteOptions, order: WorkerOrder)
    requires Inv(d, h, o)
    ensures Quiescent(d, h) ==> RecoveryWrites(d, o, order) == []
    ensures !Quiescent(d, h) ==> h != [] && RecoveryWrites(d, o, order) == PendingWrites(d, h, o, order)
  {
    Progress(d, h, o);
    if Quiescent(d, h) {
      RecoverySkips(d, h, o, order, |h|, []);
      assert CommitsUpTo(d, |h|) + [] == CommitsUpTo(d, |h|);
    } else {
      WalFacts(d, h, o, |h|);
      RecoverySkips(d, h, o, order, |h| - 1, [d.commits[|h|]]);
      RecoverLast(d, o, d.commits[|h|], order);
    }
  }

  lemma RecoverLast(d: Disk, o: WriteOptions, c: WalCommit, order: WorkerOrder)
    ensures RecoverAll(d, o, [c], order) == RecoverOne(d, o, c, order)
  {
    var first := RecoverOne(d, o, c, order);
    assert [c][1..] == [];
    assert RecoverAll(ApplyAll(d, first), o, [], order) == [];
    assert first + [] == first;
  }

  lemma RestoreSafe(d: Disk, h: History, o: WriteOptions, order: WorkerOrder)
    requires Inv(d, h, o) && !Quiescent(d, h) && h != [] && Interleaves(order)
    ensures var p := h[|h| - 1];
            var ws := RestoreWrites(o, p, order);
            var d1 := ApplyAll(d, ws);
            && Throughout(d, ws, Invariant(h, o)) && Inv(d1, h, o)
            && d1 == d.(records := d1.records, snapshots := d1.snapshots)
            && RecordsHold(d.records, d1.records, p, p.envelope.nodes.Keys) && SnapshotHolds(d1, o, p)
            && d1.records == ApplyAll(d, order(ObjectWrites(p.envelope, p.transactionId, p.objectIds,
                                                            o.format))).records
            && d1.snapshots == if o.writeSnapshots then d.snapshots[p.snapshotFile := p.envelope] else d.snapshots
  {
    var p := h[|h| - 1];
    assert ValidPrepare(p, |h|) && |h| > PublishedId(d.manifest) by { InvParts(d, h, o); }
    var w1 := order(ObjectWrites(p.envelope, p.transactionId, p.objectIds, o.format));
    RecordStage(d, h, o, p, p.objectIds, order);
    var d1 := ApplyAll(d, w1);
    SnapshotStage(d1, h, o, p);
    Join(d, w1, SnapshotWrites(o, p), Invariant(h, o));
  }

  /** Recovery keeps the invariant between any two of its writes and leaves nothing pending. */
  lemma RecoverySafe(d: Disk, h: History, o: WriteOptions, order: WorkerOrder)
    requires Inv(d, h, o) && Interleaves(order)
    ensures var ws := RecoveryWrites(d, o, order);
            var d' := ApplyAll(d, ws);
            Throughout(d, ws, Invariant(h, o)) && Inv(d', h, o) && Quiescent(d', h)
  {
    RecoveryIsPending(d, h, o, order);
    if !Quiescent(d, h) {
      var p := h[|h| - 1];
      assert ValidPrepare(p, |h|) by { InvParts(d, h, o); }
      var first := RestoreWrites(o, p, order);
      RestoreSafe(d, h, o, order);
      var d1 := ApplyAll(d, first);
      var versions := UniformVersions(p.envelope, p.transactionId);
      assert VersionsInv(d1.records, h, p, versions);
      PublishSafe(d1, h, o, versions, None);
      Join(d, first, PublishPlan(d1.transactions, o, p, versions, None), Invariant(h, o));
    }
  }
}
