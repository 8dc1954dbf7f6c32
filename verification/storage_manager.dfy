/** Manager, writer and reader as objects. */
module StorageManagement {
  // The manager, committer, writer and reader as the objects they are, proved against the plans.

  import opened EncodedGraph
  import opened StorageDisk
  import opened CommitPlan
  import opened CommitSafety
  import opened CrashRuns

  /** Disk and remaining writes of a process that means to perform `ws` and dies after `left` more writes. */
  function After(d: Disk, left: nat, ws: seq<Write>): (Disk, nat)
    decreases |ws|
  {
    if ws == [] then (d, left)
    else if left == 0 then (d, 0)
    else After(Apply(d, ws[0]), left - 1, ws[1..])
  }

  /** That is the prefix of the plan that a cut leaves. */
  lemma {:induction false} AfterIsCut(d: Disk, left: nat, ws: seq<Write>)
    ensures After(d, left, ws) == (ApplyAll(d, Cut(ws, left)), if left < |ws| then 0 else left - |ws|)
    decreases |ws|
  {
    if ws != [] && left > 0 {
      AfterIsCut(Apply(d, ws[0]), left - 1, ws[1..]);
      assert Cut(ws, left)[1..] == Cut(ws[1..], left - 1);
    }
  }

  lemma {:induction false} AfterConcat(d: Disk, left: nat, a: seq<Write>, b: seq<Write>)
    ensures var (d1, left1) := After(d, left, a);
            After(d, left, a + b) == After(d1, left1, b)
    decreases |a|
  {
    if a == [] {
      assert a + b == b;
    } else if left > 0 {
      assert (a + b)[1..] == a[1..] + b;
      AfterConcat(Apply(d, a[0]), left - 1, a[1..], b);
    }
  }

  /** `ok` tells whether the whole of `ws` was performed. */
  ghost predicate Outcome(d0: Disk, left0: nat, ws: seq<Write>, ok: bool, d: Disk, left: nat) {
    && (d, left) == After(d0, left0, ws)
    && ok == (|ws| <= left0)
    && left == if ok then left0 - |ws| else 0
  }

  lemma OutcomeThen(d0: Disk, left0: nat, a: seq<Write>, d1: Disk, left1: nat, b: seq<Write>, ok: bool, d2: Disk,
                    left2: nat)
    requires Outcome(d0, left0, a, true, d1, left1) && Outcome(d1, left1, b, ok, d2, left2)
    ensures Outcome(d0, left0, a + b, ok, d2, left2)
    ensures d1 == ApplyAll(d0, a)
  {
    AfterConcat(d0, left0, a, b);
    AfterIsCut(d0, left0, a);
  }

  lemma Regrouped<T>(a: seq<T>, b: seq<T>, c: seq<T>)
    ensures a + (b + c) == a + b + c
  {
  }

  /** A process that died during `a` is dead for any longer plan. */
  lemma OutcomeDead(d0: Disk, left0: nat, a: seq<Write>, b: seq<Write>, d: Disk, left: nat)
    requires Outcome(d0, left0, a, false, d, left)
    ensures Outcome(d0, left0, a + b, false, d, left)
  {
    AfterConcat(d0, left0, a, b);
  }

  /** The storage target. `writesLeft` is the number of writes until the process dies; it is never read otherwise. */
  class StorageTarget {
    var disk: Disk
    var writesLeft: nat

    constructor (d: Disk, left: nat)
      ensures disk == d && writesLeft == left
    {
      disk, writesLeft := d, left;
    }

    /** The target is where performing `ws` from `d0` with `left0` writes to live leaves it. */
    ghost predicate Performed(d0: Disk, left0: nat, ws: seq<Write>, ok: bool)
      reads this
    {
      Outcome(d0, left0, ws, ok, disk, writesLeft)
    }

    method Write(w: Write) returns (ok: bool)
      modifies this
      ensures Performed(old(disk), old(writesLeft), [w], ok)
    {
      ok := writesLeft > 0;
      assert [w][1..] == [];
      if ok {
        disk, writesLeft := Apply(disk, w), writesLeft - 1;
      }
    }

    /** The worker pool: each pending record in the order the workers get to it. */
    method WriteAll(ws: seq<Write>) returns (ok: bool)
      modifies this
      ensures Performed(old(disk), old(writesLeft), ws, ok)
    {
      var i := 0;
      ok := true;
      assert ws[..0] == [];
      while i < |ws| && ok
        invariant 0 <= i <= |ws|
        invariant (disk, writesLeft) == After(old(disk), old(writesLeft), ws[..i])
        invariant ok == (i <= old(writesLeft)) && (ok ==> writesLeft == old(writesLeft) - i) &&
                  (!ok ==> writesLeft == 0)
        decreases |ws| - i
      {
        AfterConcat(old(disk), old(writesLeft), ws[..i], [ws[i]]);
        assert ws[..i] + [ws[i]] == ws[..i + 1];
        ok := Write(ws[i]);
        i := i + 1;
      }
      if ok {
        assert ws[..i] == ws;
      } else {
        AfterConcat(old(disk), old(writesLeft), ws[..i], ws[i..]);
        assert ws[..i] + ws[i..] == ws;
      }
    }

    /** Carries a plan of which `done` was attempted on with `ws`, unless the process has died already. */
    method Proceed(alive: bool, ghost d0: Disk, ghost left0: nat, ghost done: seq<Write>, ws: seq<Write>)
      returns (ok: bool)
      requires Performed(d0, left0, done, alive)
      modifies this
      ensures Performed(d0, left0, done + ws, ok)
    {
      AfterConcat(d0, left0, done, ws);
      ok := alive;
      if alive {
        ok := WriteAll(ws);
      }
    }

    method ReadLatestTransactionRecord() returns (r: Option<TransactionRecord>)
      ensures r == LatestTransaction(disk.transactions)
    {
      var h := HighestKey(disk.transactions.Keys);
      r := if h in disk.transactions then Some(disk.transactions[h]) else None;
    }

    /** The readable commit markers in transaction order. */
    method ReadCommittedWalRecords() returns (cs: seq<WalCommit>)
      ensures cs == CommitsUpTo(disk, Highest(disk.commits.Keys))
    {
      var top := HighestKey(disk.commits.Keys);
      cs := [];
      for n := 1 to top + 1
        invariant cs == CommitsUpTo(disk, n - 1)
      {
        if n in disk.commits {
          cs := cs + [disk.commits[n]];
        }
      }
    }

    method ReadLatestCommittedWal() returns (p: Option<WalPrepare>)
      ensures p == LatestWal(disk, Highest(disk.commits.Keys))
    {
      var n := HighestKey(disk.commits.Keys);
      while n > 0
        invariant LatestWal(disk, Highest(disk.commits.Keys)) == LatestWal(disk, n)
      {
        if n in disk.commits {
          p := PreparedFor(disk, disk.commits[n]);
          if p.Some? { return; }
        }
        n := n - 1;
      }
      p := None;
    }

    method LoadExistingEnvelope() returns (l: Loaded)
      ensures l == Load(disk)
    {
      var wal := ReadLatestCommittedWal();
      if wal.Some? && wal.value.transactionId > PublishedId(disk.manifest) {
        var p := wal.value;
        return Loaded(FromWal, p.envelope, Session(p.transactionId, UniformVersions(p.envelope, p.transactionId),
                                                   p.schemaVersion));
      }
      if disk.manifest.Some? {
        var m := disk.manifest.value;
        var latest := ReadLatestTransactionRecord();
        var e := EnvelopeFromManifest(disk.records, m);
        if !(latest.Some? && latest.value.payload.transactionId > m.transactionId) && e.Some? {
          return Loaded(FromManifest, e.value, Session(m.transactionId, ManifestVersions(m), m.schemaVersion));
        }
      }
      return LoadSnapshot(disk);
    }
  }

  ghost function LogPlan(log: Log, p: WalPrepare, metadata: Option<string>): seq<Write> {
    var latest := LatestTransaction(log);
    if latest.Some? && latest.value.payload.transactionId == p.transactionId then []
    else [PutTransaction(PublishedRecord(log, p, metadata)), PutDerived(Journal, p.transactionId)]
  }

  lemma RecoverAllStep(d: Disk, options: WriteOptions, cs: seq<WalCommit>, i: nat, order: WorkerOrder)
    requires i < |cs|
    ensures var one := RecoverOne(d, options, cs[i], order);
            RecoverAll(d, options, cs[i..], order) == one + RecoverAll(ApplyAll(d, one), options, cs[i + 1..], order)
  {
    assert cs[i..][0] == cs[i] && cs[i..][1..] == cs[i + 1..];
  }

  lemma RecoveryEnd(d: Disk, options: WriteOptions, cs: seq<WalCommit>, order: WorkerOrder, done: seq<Write>)
    ensures done + RecoverAll(d, options, cs[|cs|..], order) == done
  {
    assert cs[|cs|..] == [];
  }

  method HighestKey(keys: set<nat>) returns (h: nat)
    ensures h == Highest(keys)
  {
    h := 0;
    var rest := keys;
    while rest != {}
      invariant rest <= keys
      invariant forall k | k in keys && k !in rest :: k <= h
      invariant h == 0 || h in keys
    {
      var k :| k in rest;
      if k > h { h := k; }
      rest := rest - {k};
    }
  }

  method NextVersions(base: map<ObjectId, nat>, all: set<ObjectId>, written: set<ObjectId>, n: nat)
    returns (versions: map<ObjectId, nat>)
    ensures versions == NextObjectVersions(base, all, written, n)
  {
    versions := map[];
    var rest := all;
    while rest != {}
      invariant rest <= all
      invariant versions == NextObjectVersions(base, all - rest, written, n)
    {
      var id :| id in rest;
      versions := versions[id := if id in written || id !in base then n else base[id]];
      rest := rest - {id};
      assert all - rest == (all - (rest + {id})) + {id};
    }
    assert all - rest == all;
  }

  class StorageManager {
    const target: StorageTarget
    const options: WriteOptions
    const order: WorkerOrder
    const targetSchema: nat
    var session: Option<Session>

    constructor (target: StorageTarget, options: WriteOptions, order: WorkerOrder, targetSchema: nat)
      ensures this.target == target && this.options == options && this.order == order
      ensures this.targetSchema == targetSchema && session == None
    {
      this.target, this.options, this.order, this.targetSchema := target, options, order, targetSchema;
      session := None;
    }

    /** The transaction record of this number if the log ends in it, else the next link of the hash chain. */
    method ChooseRecord(p: WalPrepare, metadata: Option<string>) returns (record: TransactionRecord, ws: seq<Write>)
      ensures record == PublishedRecord(target.disk.transactions, p, metadata)
      ensures ws == LogPlan(target.disk.transactions, p, metadata)
    {
      var n := p.transactionId;
      var previous := target.ReadLatestTransactionRecord();
      if previous.Some? && previous.value.payload.transactionId == n {
        return previous.value, [];
      }
      var previousHash := if previous.Some? && previous.value.payload.transactionId < n then
                  Some(previous.value.transactionHash) else None;
      var payload := TransactionPayload(n, p.snapshotFile, p.envelope.nodes.Keys, p.mode, p.targetCount, metadata,
                                        EnvelopeDigest(p.envelope), previousHash, p.schemaVersion);
      record := TransactionRecord(payload, TransactionDigest(payload));
      ws := [PutTransaction(record), PutDerived(Journal, n)];
    }

    /** `publishPreparedCommit`: reuse or write the transaction record, then indexes, CURRENT and the manifest. */
    method PublishPreparedCommit(p: WalPrepare, versions: map<ObjectId, nat>, metadata: Option<string>)
      returns (ok: bool)
      modifies target
      ensures target.Performed(old(target.disk), old(target.writesLeft),
                               PublishPlan(old(target.disk).transactions, options, p, versions, metadata), ok)
    {
      ghost var d0, left0 := target.disk, target.writesLeft;
      var n := p.transactionId;
      var record, w1 := ChooseRecord(p, metadata);
      ok := target.WriteAll(w1);
      var w2 := [PutDerived(ParentIndex, n), PutDerived(ConstraintRecord, n), PutDerived(PersistentIndex, n)];
      ok := target.Proceed(ok, d0, left0, w1, w2);
      ghost var done := w1 + w2;
      var w3 := CurrentWrites(options, p);
      ok := target.Proceed(ok, d0, left0, done, w3);
      done := done + w3;
      var w4 := [PutManifest(ManifestOf(p, versions, record.transactionHash))];
      ok := target.Proceed(ok, d0, left0, done, w4);
      assert done + w4 == PublishPlan(d0.transactions, options, p, versions, metadata);
    }

    /** The part of a commit up to and including its marker. */
    method WriteThroughMarker(s: Session, req: CommitRequest) returns (ok: bool)
      modifies target
      ensures target.Performed(old(target.disk), old(target.writesLeft), ThroughMarker(options, s, req, order), ok)
    {
      ghost var d0, left0 := target.disk, target.writesLeft;
      var n := s.transactionId + 1;
      var p := PrepareOf(n, req);
      var ids := ObjectIdsToWrite(s.objectVersions, req.envelope.nodes.Keys, req.objectIds);
      ok := target.WriteAll([PutPrepare(p)]);
      ghost var done := [PutPrepare(p)];
      var records := order(ObjectWrites(req.envelope, n, ids, options.format));
      ok := target.Proceed(ok, d0, left0, done, records);
      done := done + records;
      var types := if req.typesChanged then [PutDerived(TypeDictionary, n)] else [];
      ok := target.Proceed(ok, d0, left0, done, types);
      done := done + types;
      var snapshot := if options.writeSnapshots then [PutSnapshot(n, req.envelope)] else [];
      ok := target.Proceed(ok, d0, left0, done, snapshot);
      done := done + snapshot;
      ok := target.Proceed(ok, d0, left0, done, [PutCommit(MarkerOf(p))]);
      assert done == BeforeMarker(options, s, req, order);
    }

    /** `commitEnvelope`: the writes of the plan in order, and on success the manager's state moved along. */
    method CommitEnvelope(req: CommitRequest) returns (ok: bool)
      requires session.Some?
      modifies this, target
      ensures target.Performed(old(target.disk), old(target.writesLeft),
                               CommitWrites(old(target.disk), options, old(session).value, req, order), ok)
      ensures ok ==> session == Some(Session(old(session).value.transactionId + 1,
                                             VersionsAfter(old(session).value, req), req.schemaVersion))
      ensures !ok ==> session == old(session)
    {
      ghost var d0, left0 := target.disk, target.writesLeft;
      var s := session.value;
      var n := s.transactionId + 1;
      var versions := NextVersions(s.objectVersions, req.envelope.nodes.Keys, req.objectIds, n);
      ghost var first := ThroughMarker(options, s, req, order);
      ok := WriteThroughMarker(s, req);
      ghost var rest := PublishPlan(ApplyAll(d0, first).transactions, options, PrepareOf(n, req), versions,
                                    req.metadata);
      assert CommitWrites(d0, options, s, req, order) == first + rest;
      if !ok {
        OutcomeDead(d0, left0, first, rest, target.disk, target.writesLeft);
        return;
      }
      ghost var d1, left1 := target.disk, target.writesLeft;
      AfterIsCut(d0, left0, first);
      ok := PublishPreparedCommit(PrepareOf(n, req), versions, req.metadata);
      OutcomeThen(d0, left0, first, d1, left1, rest, ok, target.disk, target.writesLeft);
      if ok {
        session := Some(Session(n, versions, req.schemaVersion));
      }
    }

    /** One round of the recovery loop. */
    method RecoverCommit(c: WalCommit) returns (ok: bool)
      modifies target
      ensures target.Performed(old(target.disk), old(target.writesLeft),
                               RecoverOne(old(target.disk), options, c, order), ok)
    {
      ghost var d0, left0 := target.disk, target.writesLeft;
      var latest := target.ReadLatestTransactionRecord();
      var latestId := if latest.Some? then latest.value.payload.transactionId else 0;
      var prepared := PreparedFor(target.disk, c);
      if (PublishedId(target.disk.manifest) >= c.transactionId && latestId >= c.transactionId) || prepared.None? {
        return true;
      }
      var p := prepared.value;
      var first := RestoreWrites(options, p, order);
      ok := target.WriteAll(first);
      var versions := UniformVersions(p.envelope, p.transactionId);
      ghost var rest := PublishPlan(ApplyAll(d0, first).transactions, options, p, versions, None);
      if !ok {
        OutcomeDead(d0, left0, first, rest, target.disk, target.writesLeft);
        return;
      }
      ghost var d1, left1 := target.disk, target.writesLeft;
      AfterIsCut(d0, left0, first);
      ok := PublishPreparedCommit(p, versions, None);
      OutcomeThen(d0, left0, first, d1, left1, rest, ok, target.disk, target.writesLeft);
    }

    /** Recovers `commits[i]` as part of the plan `total`, of which `done` has been performed. */
    method RecoverNext(commits: seq<WalCommit>, i: nat, ghost d0: Disk, ghost left0: nat, ghost done: seq<Write>,
                       ghost total: seq<Write>)
      returns (ok: bool, ghost done': seq<Write>)
      requires i < |commits| && target.Performed(d0, left0, done, true)
      requires total == done + RecoverAll(target.disk, options, commits[i..], order)
      modifies target
      ensures ok ==>
                target.Performed(d0, left0, done', true) &&
                total == done' + RecoverAll(target.disk, options, commits[i + 1..], order)
      ensures !ok ==> target.Performed(d0, left0, total, false)
    {
      ghost var d, left := target.disk, target.writesLeft;
      ghost var one := RecoverOne(d, options, commits[i], order);
      ghost var rest := RecoverAll(ApplyAll(d, one), options, commits[i + 1..], order);
      RecoverAllStep(d, options, commits, i, order);
      ok := RecoverCommit(commits[i]);
      OutcomeThen(d0, left0, done, d, left, one, ok, target.disk, target.writesLeft);
      done' := done + one;
      Regrouped(done, one, rest);
      if ok {
        AfterIsCut(d, left, one);
      } else {
        OutcomeDead(d0, left0, done', rest, target.disk, target.writesLeft);
      }
    }

    /** `recoverCommittedWalLocked`: every committed WAL entry in turn, the disk read anew before each. */
    method RecoverCommittedWal() returns (ok: bool)
      modifies target
      ensures target.Performed(old(target.disk), old(target.writesLeft),
                               RecoveryWrites(old(target.disk), options, order), ok)
    {
      ghost var d0, left0, total := target.disk, target.writesLeft, RecoveryWrites(target.disk, options, order);
      var commits := target.ReadCommittedWalRecords();
      ghost var done: seq<Write> := [];
      assert commits[0..] == commits && done + total == total;
      ok := true;
      for i := 0 to |commits|
        invariant ok && target.Performed(d0, left0, done, true)
        invariant total == done + RecoverAll(target.disk, options, commits[i..], order)
      {
        ok, done := RecoverNext(commits, i, d0, left0, done, total);
        if !ok { return; }
      }
      RecoveryEnd(target.disk, options, commits, order, done);
    }

    /** `start`: recover, then load. Afterwards the manager is where the run semantics puts it. */
    method Start() returns (ok: bool, loaded: Loaded)
      requires session.None?
      modifies this, target
      ensures target.Performed(old(target.disk), old(target.writesLeft),
                               RecoveryWrites(old(target.disk), options, order), ok)
      ensures ok ==> loaded == Load(target.disk) && session == Some(SessionAfter(loaded, targetSchema))
      ensures !ok ==> session == None
    {
      ok := RecoverCommittedWal();
      loaded := Empty;
      if ok {
        loaded := target.LoadExistingEnvelope();
        session := Some(SessionAfter(loaded, targetSchema));
      }
    }
  }

  /** What `CommitEnvelope` does to disk and session is one step of a run, cut where the process died. */
  lemma CommitIsStep(w: World, st: Store, req: CommitRequest, order: WorkerOrder, ok: bool, d: Disk, left0: nat,
                     left: nat)
    requires w.session.Some?
    requires Outcome(w.disk, left0, CommitWrites(w.disk, st.options, w.session.value, req, order), ok, d, left)
    ensures CommitStep(w, st, req, order, if ok then None else Some(left0)).disk == d
  {
    AfterIsCut(w.disk, left0, CommitWrites(w.disk, st.options, w.session.value, req, order));
  }

  /** So is `Start`, and it leaves the manager in the session the run semantics gives it. */
  lemma StartIsStep(w: World, st: Store, order: WorkerOrder, ok: bool, d: Disk, left0: nat, left: nat)
    requires Outcome(w.disk, left0, RecoveryWrites(w.disk, st.options, order), ok, d, left)
    ensures var w' := StartStep(w, st, order, if ok then None else Some(left0));
            w'.disk == d && w'.session == if ok then Some(SessionAfter(Load(d), st.targetSchema)) else None
  {
    AfterIsCut(w.disk, left0, RecoveryWrites(w.disk, st.options, order));
  }
}
