/** A reload, look by look, while other managers write. */
module ConcurrentReads {
  // `loadExistingEnvelope` awaits the manifest, the WAL, the transaction log and every record one after
  // another. Without the lock, any number of writes may lie between two of its looks at the target.

  import opened EncodedGraph
  import opened StorageDisk
  import opened CommitPlan
  import opened CrashInvariant
  import opened RecoverySafety
  import opened CrashRuns

  /** What a reader has seen, named after where it looks next; `Done` carries the source, none for the empty store. */
  datatype Look =
    | AtWal(published: Option<Manifest>)
    | AtPrepared(published: Option<Manifest>, markers: seq<WalCommit>)
    | AtLog(manifest: Manifest)
    | AtRecords(manifest: Manifest, nodes: map<ObjectId, EncodedNode>)
    | AtCurrent
    | AtSnapshot(file: nat)
    | Done(source: Option<Source>, transactionId: nat, root: Envelope)
    | Broken

  function FirstLook(d: Disk): Look {
    AtWal(d.manifest)
  }

  /** One more look at the target as it is now; `id` is the record to read next. */
  ghost function NextLook(d: Disk, initial: Envelope, l: Look, id: ObjectId): Look {
    match l
    case AtWal(m) => AtPrepared(m, CommitsUpTo(d, Highest(d.commits.Keys)))
    case AtPrepared(m, markers) =>
      if markers == [] then WithoutWal(m)
      else
        var p := PreparedFor(d, markers[|markers| - 1]);
        if p.None? then AtPrepared(m, markers[..|markers| - 1])
        else if p.value.transactionId > PublishedId(m) then
          Done(Some(FromWal), p.value.transactionId, p.value.envelope)
        else WithoutWal(m)
    case AtLog(m) => if LatestTransactionId(d.transactions) > m.transactionId then AtCurrent else AtRecords(m, map[])
    case AtRecords(m, nodes) =>
      if nodes.Keys == m.objectIds then Done(Some(FromManifest), m.transactionId, Envelope(m.root, nodes))
      else if id !in m.objectIds - nodes.Keys then l
      else
        var r := ReadObject(d.records, id, ManifestVersions(m)[id]);
        if r.None? then AtCurrent else AtRecords(m, nodes[id := r.value.node])
    case AtCurrent => if d.current.None? then Done(None, 0, initial) else AtSnapshot(d.current.value)
    case AtSnapshot(n) => if n in d.snapshots then Done(Some(FromSnapshot), n, d.snapshots[n]) else Broken
    case _ => l
  }

  function WithoutWal(m: Option<Manifest>): Look {
    if m.Some? then AtLog(m.value) else AtCurrent
  }

  function RootAt(initial: Envelope, h: History, n: nat): Envelope
    requires n <= |h|
  {
    if n == 0 then initial else h[n - 1].envelope
  }

  /** A manifest that was published at some time: its versions still read as the commits wrote them. */
  ghost predicate Held(d: Disk, h: History, m: Manifest) {
    && 1 <= m.transactionId <= |h|
    && m.root == h[m.transactionId - 1].envelope.root
    && m.objectIds == h[m.transactionId - 1].envelope.nodes.Keys
    && VersionsInv(d.records, h, h[m.transactionId - 1], m.objectVersions)
    && h[m.transactionId - 1].transactionId == m.transactionId
  }

  ghost predicate MarkersSeen(h: History, markers: seq<WalCommit>) {
    |markers| <= |h| && forall i | 0 <= i < |markers| :: markers[i] == MarkerOf(h[i])
  }

  /** What a read knows; `since` is the number of transactions committed when it began. */
  ghost predicate LookInv(d: Disk, h: History, initial: Envelope, since: nat, l: Look) {
    match l
    case AtWal(m) => since <= |h| && (m.Some? ==> Held(d, h, m.value))
    case AtPrepared(m, markers) =>
      (m.Some? ==> Held(d, h, m.value)) && MarkersSeen(h, markers) && since <= |markers|
    case AtLog(m) => Held(d, h, m) && since <= m.transactionId
    case AtRecords(m, nodes) =>
      && Held(d, h, m) && since <= m.transactionId && nodes.Keys <= m.objectIds
      && forall id | id in nodes :: nodes[id] == h[m.transactionId - 1].envelope.nodes[id]
    case AtCurrent => true
    case AtSnapshot(n) => 1 <= n <= |h| && n in d.snapshots
    case Done(source, n, e) =>
      && n <= |h| && e == RootAt(initial, h, n)
      && (source == Some(FromWal) || source == Some(FromManifest) ==> since <= n)
      && (source == None ==> n == 0)
    case Broken => false
  }

  // What other managers' writes leave alone.

  /** Later: committed transactions and their records and the snapshots are still there. */
  ghost predicate Later(d: Disk, h: History, d': Disk, h': History) {
    && h <= h'
    && d.snapshots.Keys <= d'.snapshots.Keys
    && forall id, v: nat | v <= |h| :: ReadObject(d'.records, id, v) == ReadObject(d.records, id, v)
  }

  lemma HeldLater(d: Disk, h: History, d': Disk, h': History, m: Manifest)
    requires Held(d, h, m) && Later(d, h, d', h')
    ensures Held(d', h', m)
  {
    var p := h[m.transactionId - 1];
    forall id | id in m.objectVersions
      ensures Recorded(d'.records, h', id, m.objectVersions[id], p.envelope.nodes[id])
    {
      assert Recorded(d.records, h, id, m.objectVersions[id], p.envelope.nodes[id]);
    }
  }

  /** A read in progress is not disturbed by writes that come between its looks. */
  lemma LookLater(d: Disk, h: History, d': Disk, h': History, initial: Envelope, since: nat, l: Look)
    requires LookInv(d, h, initial, since, l) && Later(d, h, d', h')
    ensures LookInv(d', h', initial, since, l)
  {
    match l
    case AtWal(m) => if m.Some? { HeldLater(d, h, d', h', m.value); }
    case AtPrepared(m, _) => if m.Some? { HeldLater(d, h, d', h', m.value); }
    case AtLog(m) => HeldLater(d, h, d', h', m);
    case AtRecords(m, _) => HeldLater(d, h, d', h', m);
    case _ =>
  }

  // One look.

  lemma ManifestIsHeld(d: Disk, h: History, o: WriteOptions)
    requires Inv(d, h, o) && d.manifest.Some?
    ensures Held(d, h, d.manifest.value)
  {
    InvParts(d, h, o);
  }

  lemma FirstLookInv(d: Disk, h: History, o: WriteOptions, initial: Envelope)
    requires Inv(d, h, o)
    ensures LookInv(d, h, initial, |h|, FirstLook(d))
  {
    if d.manifest.Some? {
      ManifestIsHeld(d, h, o);
    }
  }

  lemma {:induction false} MarkersListed(d: Disk, h: History, o: WriteOptions, n: nat)
    requires Inv(d, h, o) && n <= |h|
    ensures |CommitsUpTo(d, n)| == n && MarkersSeen(h, CommitsUpTo(d, n))
  {
    if n > 0 {
      MarkersListed(d, h, o, n - 1);
      WalFacts(d, h, o, n);
    }
  }

  lemma HeldReads(d: Disk, h: History, m: Manifest, id: ObjectId)
    requires Held(d, h, m) && id in m.objectIds
    ensures var r := ReadObject(d.records, id, ManifestVersions(m)[id]);
            r.Some? && r.value.node == h[m.transactionId - 1].envelope.nodes[id]
  {
    assert Recorded(d.records, h, id, m.objectVersions[id], h[m.transactionId - 1].envelope.nodes[id]);
  }

  lemma AtPreparedStep(d: Disk, h: History, o: WriteOptions, initial: Envelope, since: nat, l: Look, id: ObjectId)
    requires Inv(d, h, o) && LookInv(d, h, initial, since, l) && l.AtPrepared?
    ensures LookInv(d, h, initial, since, NextLook(d, initial, l, id))
    ensures l.markers != [] ==> PreparedFor(d, l.markers[|l.markers| - 1]) == Some(h[|l.markers| - 1]) &&
                                h[|l.markers| - 1].transactionId == |l.markers|
  {
    if l.markers != [] {
      WalFacts(d, h, o, |l.markers|);
    }
  }

  lemma AtCurrentStep(d: Disk, h: History, o: WriteOptions, initial: Envelope, since: nat, id: ObjectId)
    requires Inv(d, h, o)
    ensures LookInv(d, h, initial, since, NextLook(d, initial, AtCurrent, id))
  {
    InvParts(d, h, o);
  }

  lemma AtSnapshotStep(d: Disk, h: History, o: WriteOptions, initial: Envelope, since: nat, l: Look, id: ObjectId)
    requires Inv(d, h, o) && LookInv(d, h, initial, since, l) && l.AtSnapshot?
    ensures LookInv(d, h, initial, since, NextLook(d, initial, l, id))
  {
    InvParts(d, h, o);
  }

  lemma AtWalStep(d: Disk, h: History, o: WriteOptions, initial: Envelope, since: nat, l: Look, id: ObjectId)
    requires Inv(d, h, o) && LookInv(d, h, initial, since, l) && l.AtWal?
    ensures LookInv(d, h, initial, since, NextLook(d, initial, l, id))
  {
    Progress(d, h, o);
    MarkersListed(d, h, o, |h|);
  }

  lemma AtRecordsStep(d: Disk, h: History, initial: Envelope, since: nat, l: Look, id: ObjectId)
    requires LookInv(d, h, initial, since, l) && l.AtRecords?
    ensures LookInv(d, h, initial, since, NextLook(d, initial, l, id))
  {
    var m := l.manifest;
    if id in m.objectIds - l.nodes.Keys {
      HeldReads(d, h, m, id);
    } else if l.nodes.Keys == m.objectIds {
      assert l.nodes == h[m.transactionId - 1].envelope.nodes;
    }
  }

  /** Each look, at whatever state the disk is in by then, keeps what the read knows. */
  lemma LookStep(d: Disk, h: History, o: WriteOptions, initial: Envelope, since: nat, l: Look, id: ObjectId)
    requires Inv(d, h, o) && LookInv(d, h, initial, since, l)
    ensures LookInv(d, h, initial, since, NextLook(d, initial, l, id))
  {
    match l
    case AtWal(_) => AtWalStep(d, h, o, initial, since, l, id);
    case AtPrepared(_, _) => AtPreparedStep(d, h, o, initial, since, l, id);
    case AtRecords(_, _) => AtRecordsStep(d, h, initial, since, l, id);
    case AtCurrent => AtCurrentStep(d, h, o, initial, since, id);
    case AtSnapshot(_) => AtSnapshotStep(d, h, o, initial, since, l, id);
    case _ =>
  }

  // Nobody writes meanwhile.

  ghost function Looks(d: Disk, initial: Envelope, l: Look, ids: seq<ObjectId>): Look
    decreases |ids|
  {
    if ids == [] then l else Looks(d, initial, NextLook(d, initial, l, ids[0]), ids[1..])
  }

  /** On an unchanging disk the snapshot is needed for an empty store only. */
  ghost predicate Undisturbed(h: History, l: Look) {
    && (l.AtCurrent? ==> h == []) && !l.AtSnapshot?
    && (l.Done? ==> l.transactionId == |h|)
  }

  lemma UndisturbedStep(d: Disk, h: History, o: WriteOptions, initial: Envelope, l: Look, id: ObjectId)
    requires Inv(d, h, o) && LookInv(d, h, initial, |h|, l) && Undisturbed(h, l)
    ensures Undisturbed(h, NextLook(d, initial, l, id))
  {
    Progress(d, h, o);
    match l
    case AtPrepared(m, markers) => AtPreparedStep(d, h, o, initial, |h|, l, id);
    case AtRecords(m, nodes) =>
      if id in m.objectIds - nodes.Keys {
        HeldReads(d, h, m, id);
      }
    case AtCurrent => InvParts(d, h, o);
    case _ =>
  }

  /** Look by look on an unchanging disk, the read ends where `Load` does: with the last committed root. */
  lemma {:induction false} UndisturbedReload(d: Disk, h: History, o: WriteOptions, initial: Envelope, l: Look,
                                             ids: seq<ObjectId>)
    requires Inv(d, h, o) && LookInv(d, h, initial, |h|, l) && Undisturbed(h, l)
    requires Looks(d, initial, l, ids).Done?
    ensures Looks(d, initial, l, ids).transactionId == |h|
    ensures Looks(d, initial, l, ids).root == RootAt(initial, h, |h|)
    decreases |ids|
  {
    if ids != [] {
      LookStep(d, h, o, initial, |h|, l, ids[0]);
      UndisturbedStep(d, h, o, initial, l, ids[0]);
      UndisturbedReload(d, h, o, initial, NextLook(d, initial, l, ids[0]), ids[1..]);
    }
  }

  /** How many looks a read still takes at most, if nobody writes and each record read is one it needs. */
  ghost function LooksLeft(d: Disk, l: Look): nat {
    match l
    case AtWal(m) => 6 + |CommitsUpTo(d, Highest(d.commits.Keys))| + ListedIn(m)
    case AtPrepared(m, markers) => 5 + |markers| + ListedIn(m)
    case AtLog(m) => 4 + |m.objectIds|
    case AtRecords(m, nodes) => 3 + |m.objectIds - nodes.Keys|
    case AtCurrent => 2
    case AtSnapshot(_) => 1
    case _ => 0
  }

  function ListedIn(m: Option<Manifest>): nat {
    if m.Some? then |m.value.objectIds| else 0
  }

  lemma NoneMissing(a: set<ObjectId>, b: set<ObjectId>)
    requires b <= a && a - b == {}
    ensures a == b
  {
    forall x | x in a ensures x in b {
      assert x !in a - b;
    }
  }

  lemma OneFewer(ids: set<ObjectId>, nodes: map<ObjectId, EncodedNode>, id: ObjectId, node: EncodedNode)
    requires id in ids - nodes.Keys
    ensures |ids - nodes[id := node].Keys| < |ids - nodes.Keys|
  {
    assert ids - nodes[id := node].Keys == (ids - nodes.Keys) - {id};
  }

  /** All records are read, or reading one that is missing brings the read on. */
  lemma RecordsNext(d: Disk, initial: Envelope, m: Manifest, nodes: map<ObjectId, EncodedNode>, id: ObjectId)
    requires id in m.objectIds ==> ReadObject(d.records, id, ManifestVersions(m)[id]).Some?
    ensures nodes.Keys == m.objectIds ==> NextLook(d, initial, AtRecords(m, nodes), id).Done?
    ensures id in m.objectIds - nodes.Keys ==>
              NextLook(d, initial, AtRecords(m, nodes), id) ==
              AtRecords(m, nodes[id := ReadObject(d.records, id, ManifestVersions(m)[id]).value.node])
  {
  }

  lemma RecordsLookOn(d: Disk, initial: Envelope, m: Manifest, nodes: map<ObjectId, EncodedNode>)
    returns (id: ObjectId)
    requires nodes.Keys <= m.objectIds
    requires forall id | id in m.objectIds :: ReadObject(d.records, id, ManifestVersions(m)[id]).Some?
    ensures var next := NextLook(d, initial, AtRecords(m, nodes), id);
            next.Done? ||
            (next.AtRecords? && next.manifest == m && |m.objectIds - next.nodes.Keys| < |m.objectIds - nodes.Keys|)
  {
    var missing := m.objectIds - nodes.Keys;
    if missing == {} {
      NoneMissing(m.objectIds, nodes.Keys);
      id := 0;
      RecordsNext(d, initial, m, nodes, id);
    } else {
      id :| id in missing;
      RecordsNext(d, initial, m, nodes, id);
      OneFewer(m.objectIds, nodes, id, ReadObject(d.records, id, ManifestVersions(m)[id]).value.node);
    }
  }

  lemma PreparedShrinks(d: Disk, initial: Envelope, m: Option<Manifest>, markers: seq<WalCommit>, id: ObjectId)
    ensures var next := NextLook(d, initial, AtPrepared(m, markers), id);
            || (markers != [] && next == AtPrepared(m, markers[..|markers| - 1]))
            || next.Done? || next == WithoutWal(m)
  {
  }

  lemma LogShrinks(d: Disk, initial: Envelope, m: Manifest, id: ObjectId)
    ensures LooksLeft(d, NextLook(d, initial, AtLog(m), id)) < LooksLeft(d, AtLog(m))
  {
    var none: map<ObjectId, EncodedNode> := map[];
    assert m.objectIds - none.Keys == m.objectIds;
  }

  lemma LookShrinks(d: Disk, initial: Envelope, l: Look, id: ObjectId)
    requires !l.AtRecords? && !l.Done? && !l.Broken?
    ensures LooksLeft(d, NextLook(d, initial, l, id)) < LooksLeft(d, l)
  {
    match l
    case AtPrepared(m, markers) => PreparedShrinks(d, initial, m, markers, id);
    case AtLog(m) => LogShrinks(d, initial, m, id);
    case _ =>
  }

  lemma HeldReadable(d: Disk, h: History, m: Manifest)
    requires Held(d, h, m)
    ensures forall id | id in m.objectIds :: ReadObject(d.records, id, ManifestVersions(m)[id]).Some?
  {
    forall id | id in m.objectIds ensures ReadObject(d.records, id, ManifestVersions(m)[id]).Some? {
      HeldReads(d, h, m, id);
    }
  }

  /** A read that is not done can always look on. */
  lemma LookOn(d: Disk, h: History, initial: Envelope, l: Look) returns (id: ObjectId)
    requires LookInv(d, h, initial, |h|, l) && !l.Done?
    ensures LooksLeft(d, NextLook(d, initial, l, id)) < LooksLeft(d, l)
  {
    if l.AtRecords? {
      HeldReadable(d, h, l.manifest);
      id := RecordsLookOn(d, initial, l.manifest, l.nodes);
    } else {
      id := 0;
      LookShrinks(d, initial, l, id);
    }
  }

  // Others write meanwhile.

  /** The disk as one look finds it, and the record that look would read. */
  datatype Moment = Moment(disk: Disk, history: History, id: ObjectId)

  ghost predicate Unfolding(ms: seq<Moment>, o: WriteOptions) {
    && (forall i | 0 <= i < |ms| :: Inv(ms[i].disk, ms[i].history, o))
    && forall i, j | 0 <= i < j < |ms| :: Later(ms[i].disk, ms[i].history, ms[j].disk, ms[j].history)
  }

  ghost function ReadOver(ms: seq<Moment>, initial: Envelope, l: Look): Look
    decreases |ms|
  {
    if ms == [] then l else ReadOver(ms[1..], initial, NextLook(ms[0].disk, initial, l, ms[0].id))
  }

  /** Once a read has turned to the snapshot, it ends with CURRENT's snapshot or the empty store. */
  lemma {:induction false} FallenBack(ms: seq<Moment>, o: WriteOptions, initial: Envelope, l: Look)
    requires Unfolding(ms, o) && (l.AtCurrent? || l.AtSnapshot? || l.Broken? || l.Done?)
    requires l.Done? ==> l.source == Some(FromSnapshot) || l == Done(None, 0, initial)
    requires !o.writeSnapshots ==> l.AtCurrent? || l == Done(None, 0, initial)
    ensures var r := ReadOver(ms, initial, l);
            r.Done? ==> && (r.source == Some(FromSnapshot) || r == Done(None, 0, initial))
                        && (!o.writeSnapshots ==> r == Done(None, 0, initial))
    decreases |ms|
  {
    if ms != [] {
      NoSnapshotNoCurrent(ms[0].disk, ms[0].history, o);
      FallenBack(ms[1..], o, initial, NextLook(ms[0].disk, initial, l, ms[0].id));
    }
  }

  lemma NoSnapshotNoCurrent(d: Disk, h: History, o: WriteOptions)
    requires Inv(d, h, o)
    ensures !o.writeSnapshots ==> d.current.None?
  {
    InvParts(d, h, o);
  }

  /** The records of a manifest stay readable to the end. */
  lemma {:induction false} RecordsRead(ms: seq<Moment>, o: WriteOptions, initial: Envelope, since: nat, l: Look)
    requires Unfolding(ms, o) && (l.AtRecords? || (l.Done? && l.source == Some(FromManifest)))
    requires ms != [] ==> LookInv(ms[0].disk, ms[0].history, initial, since, l)
    ensures var r := ReadOver(ms, initial, l);
            r.Done? ==> r.source == Some(FromManifest)
    decreases |ms|
  {
    if ms != [] {
      var next := NextLook(ms[0].disk, initial, l, ms[0].id);
      if l.AtRecords? && ms[0].id in l.manifest.objectIds - l.nodes.Keys {
        HeldReads(ms[0].disk, ms[0].history, l.manifest, ms[0].id);
      }
      LookStep(ms[0].disk, ms[0].history, o, initial, since, l, ms[0].id);
      if |ms| > 1 {
        LookLater(ms[0].disk, ms[0].history, ms[1].disk, ms[1].history, initial, since, next);
      }
      RecordsRead(ms[1..], o, initial, since, next);
    }
  }

  /**
   * A read that found no newer WAL entry than its manifest: it gives that manifest's transaction if and only if the log
   * it then reads is not ahead of the manifest. Otherwise, without snapshots, it gives the empty store, whatever has
   * been committed.
   */
  lemma LogDecides(ms: seq<Moment>, o: WriteOptions, initial: Envelope, since: nat, m: Manifest)
    requires Unfolding(ms, o) && ms != [] && ReadOver(ms, initial, AtLog(m)).Done?
    requires LookInv(ms[0].disk, ms[0].history, initial, since, AtLog(m))
    ensures var r := ReadOver(ms, initial, AtLog(m));
            && (r.source == Some(FromManifest) <==> LatestTransactionId(ms[0].disk.transactions) <= m.transactionId)
            && (r.source != Some(FromManifest) && !o.writeSnapshots ==> r == Done(None, 0, initial))
  {
    var next := NextLook(ms[0].disk, initial, AtLog(m), ms[0].id);
    if next.AtRecords? {
      LookStep(ms[0].disk, ms[0].history, o, initial, since, AtLog(m), ms[0].id);
      if |ms| > 1 {
        LookLater(ms[0].disk, ms[0].history, ms[1].disk, ms[1].history, initial, since, next);
      }
      RecordsRead(ms[1..], o, initial, since, next);
    } else {
      FallenBack(ms[1..], o, initial, next);
    }
  }

  /**
   * And this happens: in any store without snapshots, a read that looked at manifest and WAL before another manager's
   * commit and at the log after it gives the empty store.
   */
  lemma CommitHidesStore(d: Disk, h: History, o: WriteOptions, s: Session, req: CommitRequest, order: WorkerOrder,
                         initial: Envelope, id: ObjectId)
    requires Inv(d, h, o) && InStep(d, h, s) && Interleaves(order) && h != [] && !o.writeSnapshots
    requires KeepsUnwritten(LastEnvelope(h), s.objectVersions, req)
    ensures var d' := ApplyAll(d, CommitWrites(d, o, s, req, order));
            var seen := Looks(d, initial, FirstLook(d), [id, id]);
            Looks(d', initial, seen, [id, id]) == Done(None, 0, initial)
  {
    var d', h' := ApplyAll(d, CommitWrites(d, o, s, req, order)), h + [PrepareOf(|h| + 1, req)];
    CommitDoneSafe(d, h, o, s, req, order);
    Progress(d', h', o);
    NoSnapshotNoCurrent(d', h', o);
    ManifestAndWal(d, h, o, initial, id);
    TwoLooks(d', initial, AtLog(d.manifest.value), id);
  }

  lemma ManifestAndWal(d: Disk, h: History, o: WriteOptions, initial: Envelope, id: ObjectId)
    requires Inv(d, h, o) && Quiescent(d, h) && h != []
    ensures d.manifest.Some? && d.manifest.value.transactionId == |h|
    ensures Looks(d, initial, FirstLook(d), [id, id]) == AtLog(d.manifest.value)
  {
    Progress(d, h, o);
    MarkersListed(d, h, o, |h|);
    FirstLookInv(d, h, o, initial);
    LookStep(d, h, o, initial, |h|, FirstLook(d), id);
    AtPreparedStep(d, h, o, initial, |h|, NextLook(d, initial, FirstLook(d), id), id);
    TwoLooks(d, initial, FirstLook(d), id);
  }

  lemma TwoLooks(d: Disk, initial: Envelope, l: Look, id: ObjectId)
    ensures Looks(d, initial, l, [id, id]) == NextLook(d, initial, NextLook(d, initial, l, id), id)
  {
    assert [id, id][1..] == [id] && [id][1..] == [];
    assert Looks(d, initial, NextLook(d, initial, l, id), [id]) ==
           NextLook(d, initial, NextLook(d, initial, l, id), id);
  }
}
