/** Whole runs, cut between any two writes. */
module CrashRuns {
  // Whole runs of one store: sessions start, commit, stop, and die between any two target writes.

  import opened EncodedGraph
  import opened StorageDisk
  import opened CommitPlan
  import opened CrashInvariant
  import opened WriteTraces
  import opened CommitSafety
  import opened RecoverySafety

  /**
   * `cut` is the number of writes performed before the process dies, `None` when it does not; the record workers of
   * each action finish in an order of their own.
   */
  datatype Action =
    | Start(order: WorkerOrder, cut: Option<nat>)
    | Commit(request: CommitRequest, order: WorkerOrder, cut: Option<nat>)
    | Stop

  /**
   * The disk, the running session if any, the prepared records whose commit marker has been written, and the requests
   * these commits were asked for.
   */
  datatype World = World(disk: Disk, session: Option<Session>, history: History, requests: seq<CommitRequest>)

  datatype Store = Store(options: WriteOptions, targetSchema: nat)

  const EMPTY_WORLD := World(EMPTY_DISK, None, [], [])

  ghost predicate Legal(w: World, a: Action) {
    match a
    case Start(order, _) => w.session.None? && Interleaves(order)
    case Commit(req, order, _) =>
      && w.session.Some? && Interleaves(order)
      && KeepsUnwritten(LastEnvelope(w.history), w.session.value.objectVersions, req)
    case Stop => w.session.Some?
  }

  ghost function StartStep(w: World, st: Store, order: WorkerOrder, cut: Option<nat>): World {
    var ws := RecoveryWrites(w.disk, st.options, order);
    match cut
    case Some(k) => World(ApplyAll(w.disk, Cut(ws, k)), None, w.history, w.requests)
    case None =>
      var d := ApplyAll(w.disk, ws);
      World(d, Some(SessionAfter(Load(d), st.targetSchema)), w.history, w.requests)
  }

  /** A commit cut before its marker has not happened; cut later, it has. */
  ghost function CutHistory(h: History, o: WriteOptions, s: Session, req: CommitRequest, order: WorkerOrder,
                            k: nat): History {
    if k < |ThroughMarker(o, s, req, order)| then h else h + [PrepareOf(|h| + 1, req)]
  }

  ghost function CommitStep(w: World, st: Store, req: CommitRequest, order: WorkerOrder, cut: Option<nat>): World
    requires w.session.Some?
  {
    var s := w.session.value;
    var ws := CommitWrites(w.disk, st.options, s, req, order);
    match cut
    case Some(k) =>
      World(ApplyAll(w.disk, Cut(ws, k)), None, CutHistory(w.history, st.options, s, req, order, k),
            if k < |ThroughMarker(st.options, s, req, order)| then w.requests else w.requests + [req])
    case None =>
      World(ApplyAll(w.disk, ws), Some(Session(s.transactionId + 1, VersionsAfter(s, req), req.schemaVersion)),
            w.history + [PrepareOf(|w.history| + 1, req)], w.requests + [req])
  }

  ghost function Step(w: World, st: Store, a: Action): World
    requires Legal(w, a)
  {
    match a
    case Start(order, cut) => StartStep(w, st, order, cut)
    case Commit(req, order, cut) => CommitStep(w, st, req, order, cut)
    case Stop => w.(session := None)
  }

  ghost predicate WorldInv(w: World, o: WriteOptions) {
    && Inv(w.disk, w.history, o)
    && (w.session.Some? ==> InStep(w.disk, w.history, w.session.value))
  }

  lemma CutSafe(d: Disk, ws: seq<Write>, k: nat, h: History, o: WriteOptions)
    requires Throughout(d, ws, Invariant(h, o))
    ensures Inv(ApplyAll(d, Cut(ws, k)), h, o)
  {
    ThroughoutPrefix(d, ws, Invariant(h, o), |Cut(ws, k)|);
    assert ws[..|Cut(ws, k)|] == Cut(ws, k);
  }

  lemma StartKeepsInv(w: World, st: Store, order: WorkerOrder, cut: Option<nat>)
    requires WorldInv(w, st.options) && Interleaves(order)
    ensures WorldInv(StartStep(w, st, order, cut), st.options)
  {
    var ws := RecoveryWrites(w.disk, st.options, order);
    RecoverySafe(w.disk, w.history, st.options, order);
    if cut.Some? {
      CutSafe(w.disk, ws, cut.value, w.history, st.options);
    } else {
      LoadExact(ApplyAll(w.disk, ws), w.history, st.options);
      if w.history == [] { InvParts(ApplyAll(w.disk, ws), w.history, st.options); }
    }
  }

  lemma CutConcat(d: Disk, a: seq<Write>, b: seq<Write>, k: nat)
    ensures k <= |a| ==> Cut(a + b, k) == Cut(a, k)
    ensures k > |a| ==> ApplyAll(d, Cut(a + b, k)) == ApplyAll(ApplyAll(d, a), Cut(b, k - |a|))
    ensures k == |a| ==> Cut(a + b, k) == a
  {
    if k > |a| {
      assert Cut(a + b, k) == a + Cut(b, k - |a|);
      ApplyAllConcat(d, a, Cut(b, k - |a|));
    }
  }

  lemma CommitShape(d: Disk, o: WriteOptions, s: Session, req: CommitRequest, order: WorkerOrder)
    ensures CommitWrites(d, o, s, req, order) == ThroughMarker(o, s, req, order) + PublishPart(d, o, s, req, order)
    ensures ThroughMarker(o, s, req, order) ==
            BeforeMarker(o, s, req, order) + [PutCommit(MarkerOf(PrepareOf(s.transactionId + 1, req)))]
  {
  }

  /** Cut before its marker, a commit has not happened. */
  lemma CutBeforeMarker(d: Disk, h: History, o: WriteOptions, s: Session, req: CommitRequest, order: WorkerOrder,
                        k: nat)
    requires Inv(d, h, o) && InStep(d, h, s) && Interleaves(order)
    requires k < |ThroughMarker(o, s, req, order)|
    ensures Inv(ApplyAll(d, Cut(CommitWrites(d, o, s, req, order), k)), CutHistory(h, o, s, req, order, k), o)
  {
    var before := BeforeMarker(o, s, req, order);
    BeforeMarkerSafe(d, h, o, s, req, order);
    CommitShape(d, o, s, req, order);
    CutConcat(d, ThroughMarker(o, s, req, order), PublishPart(d, o, s, req, order), k);
    CutConcat(d, before, [PutCommit(MarkerOf(PrepareOf(s.transactionId + 1, req)))], k);
    CutSafe(d, before, k, h, o);
  }

  lemma PublishPartSafe(d: Disk, h: History, o: WriteOptions, s: Session, req: CommitRequest, order: WorkerOrder)
    requires Inv(d, h, o) && InStep(d, h, s) && Interleaves(order)
    requires KeepsUnwritten(LastEnvelope(h), s.objectVersions, req)
    ensures Throughout(ApplyAll(d, ThroughMarker(o, s, req, order)), PublishPart(d, o, s, req, order),
                       Invariant(h + [PrepareOf(|h| + 1, req)], o))
  {
    CommitSafe(d, h, o, s, req, order);
  }

  lemma CutSuffixSafe(d: Disk, first: seq<Write>, rest: seq<Write>, k: nat, h: History, o: WriteOptions)
    requires Throughout(ApplyAll(d, first), rest, Invariant(h, o)) && k >= |first|
    ensures Inv(ApplyAll(d, Cut(first + rest, k)), h, o)
  {
    var d1 := ApplyAll(d, first);
    CutSafe(d1, rest, k - |first|, h, o);
    CutConcat(d, first, rest, k);
    assert k == |first| ==> Cut(rest, 0) == [];
    SameInv(ApplyAll(d1, Cut(rest, k - |first|)), h, ApplyAll(d, Cut(first + rest, k)), h, o);
  }

  /** Cut after its marker, it has, and recovery has the rest to do. */
  lemma CutAfterMarker(d: Disk, h: History, o: WriteOptions, s: Session, req: CommitRequest, order: WorkerOrder, k: nat)
    requires Inv(d, h, o) && InStep(d, h, s) && Interleaves(order)
    requires KeepsUnwritten(LastEnvelope(h), s.objectVersions, req)
    requires k >= |ThroughMarker(o, s, req, order)|
    ensures Inv(ApplyAll(d, Cut(CommitWrites(d, o, s, req, order), k)), CutHistory(h, o, s, req, order, k), o)
  {
    PublishPartSafe(d, h, o, s, req, order);
    CommitShape(d, o, s, req, order);
    CutSuffixSafe(d, ThroughMarker(o, s, req, order), PublishPart(d, o, s, req, order), k,
                  h + [PrepareOf(|h| + 1, req)], o);
  }

  lemma CommitCutSafe(d: Disk, h: History, o: WriteOptions, s: Session, req: CommitRequest, order: WorkerOrder, k: nat)
    requires Inv(d, h, o) && InStep(d, h, s) && Interleaves(order)
    requires KeepsUnwritten(LastEnvelope(h), s.objectVersions, req)
    ensures Inv(ApplyAll(d, Cut(CommitWrites(d, o, s, req, order), k)), CutHistory(h, o, s, req, order, k), o)
  {
    if k < |ThroughMarker(o, s, req, order)| {
      CutBeforeMarker(d, h, o, s, req, order, k);
    } else {
      CutAfterMarker(d, h, o, s, req, order, k);
    }
  }

  lemma CommitDoneSafe(d: Disk, h: History, o: WriteOptions, s: Session, req: CommitRequest, order: WorkerOrder)
    requires Inv(d, h, o) && InStep(d, h, s) && Interleaves(order)
    requires KeepsUnwritten(LastEnvelope(h), s.objectVersions, req)
    ensures var d' := ApplyAll(d, CommitWrites(d, o, s, req, order));
            var h' := h + [PrepareOf(|h| + 1, req)];
            Inv(d', h', o) && InStep(d', h', Session(s.transactionId + 1, VersionsAfter(s, req), req.schemaVersion))
  {
    CommitSafe(d, h, o, s, req, order);
    CommitShape(d, o, s, req, order);
    ApplyAllConcat(d, ThroughMarker(o, s, req, order), PublishPart(d, o, s, req, order));
  }

  lemma CommitKeepsInv(w: World, st: Store, req: CommitRequest, order: WorkerOrder, cut: Option<nat>)
    requires WorldInv(w, st.options) && Legal(w, Commit(req, order, cut))
    ensures WorldInv(CommitStep(w, st, req, order, cut), st.options)
  {
    match cut
    case Some(k) => CutCommitKeepsInv(w, st, req, order, k);
    case None => WholeCommitKeepsInv(w, st, req, order);
  }

  lemma WholeCommitKeepsInv(w: World, st: Store, req: CommitRequest, order: WorkerOrder)
    requires WorldInv(w, st.options) && Legal(w, Commit(req, order, None))
    ensures WorldInv(CommitStep(w, st, req, order, None), st.options)
  {
    CommitDoneSafe(w.disk, w.history, st.options, w.session.value, req, order);
  }

  lemma CutCommitKeepsInv(w: World, st: Store, req: CommitRequest, order: WorkerOrder, cut: nat)
    requires WorldInv(w, st.options) && Legal(w, Commit(req, order, Some(cut)))
    ensures WorldInv(CommitStep(w, st, req, order, Some(cut)), st.options)
  {
    CommitCutSafe(w.disk, w.history, st.options, w.session.value, req, order, cut);
  }

  lemma StepKeepsInv(w: World, st: Store, a: Action)
    requires WorldInv(w, st.options) && Legal(w, a)
    ensures WorldInv(Step(w, st, a), st.options) && w.history <= Step(w, st, a).history
  {
    match a
    case Start(order, cut) => StartKeepsInv(w, st, order, cut);
    case Commit(req, order, cut) => CommitKeepsInv(w, st, req, order, cut);
    case Stop =>
  }

  ghost predicate LegalRun(w: World, st: Store, run: seq<Action>)
    decreases |run|
  {
    run == [] || (Legal(w, run[0]) && LegalRun(Step(w, st, run[0]), st, run[1..]))
  }

  ghost function Run(w: World, st: Store, run: seq<Action>): World
    requires LegalRun(w, st, run)
    decreases |run|
  {
    if run == [] then w else Run(Step(w, st, run[0]), st, run[1..])
  }

  lemma {:induction false} RunKeepsInv(w: World, st: Store, run: seq<Action>)
    requires WorldInv(w, st.options) && LegalRun(w, st, run)
    ensures WorldInv(Run(w, st, run), st.options) && w.history <= Run(w, st, run).history
    decreases |run|
  {
    if run != [] {
      StepKeepsInv(w, st, run[0]);
      RunKeepsInv(Step(w, st, run[0]), st, run[1..]);
    }
  }

  /** A load yields the envelope of the last record of the history, or an empty store when there is none. */
  ghost predicate LoadsLast(l: Loaded, h: History) {
    if h == [] then l == Empty
    else l.Loaded? && l.envelope == h[|h| - 1].envelope && l.session.transactionId == |h|
  }

  lemma MarkersAreHistory(d: Disk, h: History, o: WriteOptions)
    requires Inv(d, h, o)
    ensures ValidHistory(h) && forall n :: n in d.commits <==> 1 <= n <= |h|
  {
    InvParts(d, h, o);
  }

  /**
   * Crash safety. After any run, the history holds exactly the transactions whose commit marker is on disk; loading
   * the disk as it stands, and loading it after the next start has recovered it, both yield the last of them.
   */
  lemma CrashSafety(st: Store, run: seq<Action>, next: WorkerOrder)
    requires Interleaves(next) && LegalRun(EMPTY_WORLD, st, run)
    ensures var w := Run(EMPTY_WORLD, st, run);
            && (forall n :: n in w.disk.commits <==> 1 <= n <= |w.history|)
            && LoadsLast(Load(w.disk), w.history)
            && LoadsLast(Load(ApplyAll(w.disk, RecoveryWrites(w.disk, st.options, next))), w.history)
  {
    EmptyDiskInv(st.options);
    RunKeepsInv(EMPTY_WORLD, st, run);
    var w := Run(EMPTY_WORLD, st, run);
    MarkersAreHistory(w.disk, w.history, st.options);
    LoadExact(w.disk, w.history, st.options);
    RecoverySafe(w.disk, w.history, st.options, next);
    LoadExact(ApplyAll(w.disk, RecoveryWrites(w.disk, st.options, next)), w.history, st.options);
  }

  /** Durability: whatever follows, the transactions committed so far stay the beginning of the history. */
  lemma Durability(st: Store, run: seq<Action>, more: seq<Action>)
    requires LegalRun(EMPTY_WORLD, st, run)
    requires LegalRun(Run(EMPTY_WORLD, st, run), st, more)
    ensures Run(EMPTY_WORLD, st, run).history <= Run(Run(EMPTY_WORLD, st, run), st, more).history
  {
    EmptyDiskInv(st.options);
    RunKeepsInv(EMPTY_WORLD, st, run);
    RunKeepsInv(Run(EMPTY_WORLD, st, run), st, more);
  }

  /** The manifest describes one transaction of the history through records of the commits that wrote them. */
  ghost predicate ManifestExact(d: Disk, h: History, m: Manifest) {
    && 1 <= m.transactionId <= |h| && m.objectVersions.Keys == m.objectIds
    && EnvelopeFromManifest(d.records, m) == Some(h[m.transactionId - 1].envelope)
    && forall id | id in m.objectIds ::
      var v := m.objectVersions[id];
      && 1 <= v <= m.transactionId && id in h[v - 1].envelope.nodes
      && ReadObject(d.records, id, v) == Some(ObjectRecord(id, v, h[v - 1].envelope.nodes[id]))
  }

  lemma InvGivesExactManifest(d: Disk, h: History, o: WriteOptions)
    requires Inv(d, h, o) && d.manifest.Some?
    ensures ManifestExact(d, h, d.manifest.value)
  {
    InvParts(d, h, o);
    var m := d.manifest.value;
    var p := h[m.transactionId - 1];
    ManifestReadsBack(d.records, h, p, m);
    forall id | id in m.objectIds
      ensures var v := m.objectVersions[id];
              && 1 <= v <= m.transactionId && id in h[v - 1].envelope.nodes
              && ReadObject(d.records, id, v) == Some(ObjectRecord(id, v, h[v - 1].envelope.nodes[id]))
    {
      assert Recorded(d.records, h, id, m.objectVersions[id], p.envelope.nodes[id]);
    }
  }

  /**
   * In every reachable state, mid-commit and mid-recovery included, each version the manifest names has a record
   * holding the node of the commit that wrote it, no version is newer than the manifest, and reading the manifest
   * back gives the envelope its transaction committed.
   */
  lemma ManifestNeverMixed(st: Store, run: seq<Action>)
    requires LegalRun(EMPTY_WORLD, st, run)
    ensures var w := Run(EMPTY_WORLD, st, run);
            w.disk.manifest.Some? ==> ManifestExact(w.disk, w.history, w.disk.manifest.value)
  {
    EmptyDiskInv(st.options);
    RunKeepsInv(EMPTY_WORLD, st, run);
    var w := Run(EMPTY_WORLD, st, run);
    if w.disk.manifest.Some? {
      InvGivesExactManifest(w.disk, w.history, st.options);
    }
  }
}
