/** Transactions commit when nothing is in their way. */
module TransactionProgress {
  // What becomes of a transaction: which of its steps decide, and that it commits when no other manager interferes.

  import opened EncodedGraph
  import opened StorageDisk
  import opened CommitPlan
  import opened CrashInvariant
  import opened CrashRuns
  import opened ConcurrentReads
  import opened ConcurrentTransactions

  function LastRoot(sys: System): Envelope {
    RootAt(sys.initial, sys.history, |sys.history|)
  }

  /** The manager is about to write this root as the next transaction. */
  ghost predicate Starts(sys: System, sys': System, m: ManagerId, e: Envelope) {
    && sys'.holder == Some(m) && PhaseOf(sys', m).Writing? && PhaseOf(sys', m).done == 0
    && PhaseOf(sys', m).task.before == sys.history && PhaseOf(sys', m).task.request.envelope == e
    && sys'.disk == sys.disk && sys'.history == sys.history && sys'.initial == sys.initial
    && forall k | k != m :: PhaseOf(sys', k) == PhaseOf(sys, k)
  }

  /** Under the lock an optimistic attempt goes on to write if and only if nothing was committed since it read. */
  lemma LockDecides(sys: System, st: Store, m: ManagerId, order: WorkerOrder)
    requires SystemInv(sys, st) && Enabled(sys, st, LockAndCheck(m, order))
    ensures var p, sys' := PhaseOf(sys, m), Next(sys, st, LockAndCheck(m, order));
            if p.base == |sys.history| then p.work(LastRoot(sys)) == Some(p.next) && Starts(sys, sys', m, p.next)
            else sys' == SetPhase(sys, m, Idle)
  {
    CurrentIsLast(sys.disk, sys.history, st.options);
    assert AttemptInv(sys, sys.phases[m]);
  }

  /** A pessimistic transaction works on the last committed root and goes on to write unless its callback throws. */
  lemma WorkDecides(sys: System, st: Store, m: ManagerId, work: Work, x: Details, order: WorkerOrder)
    requires SystemInv(sys, st) && Enabled(sys, st, LockReadAndWork(m, work, x, order))
    ensures var result, sys' := work(LastRoot(sys)), Next(sys, st, LockReadAndWork(m, work, x, order));
            if result.Some? then Starts(sys, sys', m, result.value) else sys' == sys
  {
    ReloadedIsLast(sys, st);
  }

  /** An optimistic one works on the root it read, and remembers what it read it as. */
  lemma AttemptBegins(sys: System, st: Store, m: ManagerId)
    requires SystemInv(sys, st) && Enabled(sys, st, RunWork(m))
    ensures var p, sys' := PhaseOf(sys, m), Next(sys, st, RunWork(m));
            var result := p.work(p.look.root);
            sys' == SetPhase(sys, m, if result.None? then Idle
                                     else Attempt(p.look.transactionId, p.look.root, result.value, p.work, p.details))
  {
  }

  // To the end.

  lemma {:induction false} Continued(sys: System, st: Store, a: seq<Event>, b: seq<Event>)
    requires Interleaving(sys, st, a) && Interleaving(Outcome(sys, st, a), st, b)
    ensures Interleaving(sys, st, a + b) && Outcome(sys, st, a + b) == Outcome(Outcome(sys, st, a), st, b)
    decreases |a|
  {
    if a == [] {
      assert a + b == b;
    } else {
      assert (a + b)[0] == a[0] && (a + b)[1..] == a[1..] + b;
      Continued(Next(sys, st, a[0]), st, a[1..], b);
    }
  }

  lemma One(sys: System, st: Store, ev: Event)
    requires Enabled(sys, st, ev)
    ensures Interleaving(sys, st, [ev]) && Outcome(sys, st, [ev]) == Next(sys, st, ev)
  {
    assert [ev][1..] == [];
    assert Interleaving(Next(sys, st, ev), st, []);
  }

  /** The transaction has been committed, and everyone else is where he was. */
  ghost predicate Finished(sys: System, sys': System, m: ManagerId, h: History, p: WalPrepare) {
    && sys'.history == h + [p] && sys'.initial == sys.initial
    && sys'.holder.None? && PhaseOf(sys', m).Idle?
    && (forall k | k != m :: PhaseOf(sys', k) == PhaseOf(sys, k))
    && Reloaded(sys') == (|h| + 1, p.envelope)
  }

  lemma WritesOn(sys: System, st: Store, m: ManagerId)
    requires SystemInv(sys, st) && Enabled(sys, st, WriteNext(m))
    ensures var p, sys' := PhaseOf(sys, m), Next(sys, st, WriteNext(m));
            && PhaseOf(sys', m) == p.(done := p.done + 1) && sys'.initial == sys.initial
            && forall k | k != m :: PhaseOf(sys', k) == PhaseOf(sys, k)
  {
  }

  lemma LetsGo(sys: System, st: Store, m: ManagerId)
    requires SystemInv(sys, st) && Enabled(sys, st, Release(m))
    ensures var t := PhaseOf(sys, m).task; Finished(sys, Next(sys, st, Release(m)), m, t.before, RecordOfTask(t))
  {
    var t := PhaseOf(sys, m).task;
    assert WritingInv(sys, st, t, PhaseOf(sys, m).done);
    NextKeepsInv(sys, st, Release(m));
    ReloadedIsLast(Next(sys, st, Release(m)), st);
  }

  /** A lock holder left alone writes its plan to the end and lets the lock go. */
  lemma {:induction false} WritingFinishes(sys: System, st: Store, m: ManagerId) returns (events: seq<Event>)
    requires SystemInv(sys, st) && PhaseOf(sys, m).Writing?
    ensures Interleaving(sys, st, events)
    ensures var t := PhaseOf(sys, m).task; Finished(sys, Outcome(sys, st, events), m, t.before, RecordOfTask(t))
    decreases |PhaseOf(sys, m).task.plan| - PhaseOf(sys, m).done
  {
    var t, done := PhaseOf(sys, m).task, PhaseOf(sys, m).done;
    assert WritingInv(sys, st, t, done);
    if done < |t.plan| {
      NextKeepsInv(sys, st, WriteNext(m));
      WritesOn(sys, st, m);
      One(sys, st, WriteNext(m));
      var rest := WritingFinishes(Next(sys, st, WriteNext(m)), st, m);
      Continued(sys, st, [WriteNext(m)], rest);
      events := [WriteNext(m)] + rest;
    } else {
      LetsGo(sys, st, m);
      One(sys, st, Release(m));
      events := [Release(m)];
    }
  }

  lemma StartedFinishes(sys: System, st: Store, ev: Event, e: Envelope) returns (events: seq<Event>)
    requires SystemInv(sys, st) && Enabled(sys, st, ev) && Starts(sys, Next(sys, st, ev), ev.m, e)
    ensures Interleaving(sys, st, events)
    ensures exists p: WalPrepare :: p.envelope == e && Finished(sys, Outcome(sys, st, events), ev.m, sys.history, p)
  {
    var sys' := Next(sys, st, ev);
    NextKeepsInv(sys, st, ev);
    One(sys, st, ev);
    var rest := WritingFinishes(sys', st, ev.m);
    Continued(sys, st, [ev], rest);
    events := [ev] + rest;
    assert Finished(sys, Outcome(sys, st, events), ev.m, sys.history, RecordOfTask(PhaseOf(sys', ev.m).task));
  }

  /** With the lock free a pessimistic transaction whose callback does not throw can run to its commit. */
  lemma PessimisticCommits(sys: System, st: Store, m: ManagerId, work: Work, x: Details, order: WorkerOrder)
    returns (events: seq<Event>)
    requires SystemInv(sys, st) && Enabled(sys, st, LockReadAndWork(m, work, x, order))
    requires work(LastRoot(sys)).Some?
    ensures Interleaving(sys, st, events)
    ensures exists p: WalPrepare :: Some(p.envelope) == work(LastRoot(sys)) &&
                                    Finished(sys, Outcome(sys, st, events), m, sys.history, p)
  {
    WorkDecides(sys, st, m, work, x, order);
    events := StartedFinishes(sys, st, LockReadAndWork(m, work, x, order), work(LastRoot(sys)).value);
  }

  ghost predicate ReadsUndisturbed(sys: System, m: ManagerId) {
    && PhaseOf(sys, m).Reading? && PhaseOf(sys, m).since == |sys.history|
    && Undisturbed(sys.history, PhaseOf(sys, m).look)
  }

  lemma LookedOn(sys: System, st: Store, m: ManagerId) returns (id: ObjectId, look: Look)
    requires SystemInv(sys, st) && ReadsUndisturbed(sys, m) && !PhaseOf(sys, m).look.Done?
    ensures Enabled(sys, st, LookAgain(m, id))
    ensures Next(sys, st, LookAgain(m, id)) == SetPhase(sys, m, PhaseOf(sys, m).(look := look))
    ensures Undisturbed(sys.history, look) && LooksLeft(sys.disk, look) < LooksLeft(sys.disk, PhaseOf(sys, m).look)
  {
    var p := PhaseOf(sys, m);
    assert ReadingInv(sys, p);
    id := LookOn(sys.disk, sys.history, sys.initial, p.look);
    UndisturbedStep(sys.disk, sys.history, st.options, sys.initial, p.look, id);
    look := NextLook(sys.disk, sys.initial, p.look, id);
  }

  /** Left alone, a read ends, with the last committed root. */
  lemma {:induction false} ReadingFinishes(sys: System, st: Store, m: ManagerId)
    returns (events: seq<Event>, look: Look)
    requires SystemInv(sys, st) && ReadsUndisturbed(sys, m)
    ensures Interleaving(sys, st, events)
    ensures Outcome(sys, st, events) == SetPhase(sys, m, PhaseOf(sys, m).(look := look))
    ensures look.Done? && look.transactionId == |sys.history| && look.root == LastRoot(sys)
    decreases LooksLeft(sys.disk, PhaseOf(sys, m).look)
  {
    var p := PhaseOf(sys, m);
    if p.look.Done? {
      events, look := [], p.look;
      assert ReadingInv(sys, p);
      assert SetPhase(sys, m, p.(look := look)) == sys;
    } else {
      var id, seen := LookedOn(sys, st, m);
      var ev := LookAgain(m, id);
      NextKeepsInv(sys, st, ev);
      One(sys, st, ev);
      var rest;
      rest, look := ReadingFinishes(Next(sys, st, ev), st, m);
      Continued(sys, st, [ev], rest);
      events := [ev] + rest;
      SetTwice(sys, m, p.(look := seen), p.(look := look));
    }
  }

  lemma SetTwice(sys: System, m: ManagerId, p: Phase, q: Phase)
    ensures SetPhase(SetPhase(sys, m, p), m, q) == SetPhase(sys, m, q)
  {
    assert sys.phases[m := p][m := q] == sys.phases[m := q];
  }

  lemma Begun(sys: System, st: Store, m: ManagerId, work: Work, x: Details)
    requires SystemInv(sys, st) && PhaseOf(sys, m).Idle?
    ensures var ev := BeginRead(m, work, x);
            && Enabled(sys, st, ev) && SystemInv(Next(sys, st, ev), st)
            && Next(sys, st, ev) == SetPhase(sys, m, Reading(FirstLook(sys.disk), |sys.history|, work, x))
            && ReadsUndisturbed(Next(sys, st, ev), m)
  {
    NextKeepsInv(sys, st, BeginRead(m, work, x));
  }

  /** What is read and what is made of it when nobody else commits. */
  lemma ReadThrough(sys: System, st: Store, m: ManagerId, work: Work, x: Details)
    returns (events: seq<Event>, look: Look)
    requires SystemInv(sys, st) && PhaseOf(sys, m).Idle?
    ensures Interleaving(sys, st, events)
    ensures Outcome(sys, st, events) == SetPhase(sys, m, Reading(look, |sys.history|, work, x))
    ensures look.Done? && look.transactionId == |sys.history| && look.root == LastRoot(sys)
  {
    var begin := BeginRead(m, work, x);
    Begun(sys, st, m, work, x);
    One(sys, st, begin);
    var looks;
    looks, look := ReadingFinishes(Next(sys, st, begin), st, m);
    Continued(sys, st, [begin], looks);
    events := [begin] + looks;
    SetTwice(sys, m, Reading(FirstLook(sys.disk), |sys.history|, work, x), Reading(look, |sys.history|, work, x));
  }

  lemma ReadAndWork(sys: System, st: Store, m: ManagerId, work: Work, x: Details) returns (events: seq<Event>)
    requires SystemInv(sys, st) && PhaseOf(sys, m).Idle? && work(LastRoot(sys)).Some?
    ensures Interleaving(sys, st, events)
    ensures Outcome(sys, st, events) ==
            SetPhase(sys, m, Attempt(|sys.history|, LastRoot(sys), work(LastRoot(sys)).value, work, x))
  {
    var first, look := ReadThrough(sys, st, m, work, x);
    var sys1 := Outcome(sys, st, first);
    InterleavingKeepsInv(sys, st, first);
    One(sys1, st, RunWork(m));
    AttemptBegins(sys1, st, m);
    Continued(sys, st, first, [RunWork(m)]);
    events := first + [RunWork(m)];
    SetTwice(sys, m, Reading(look, |sys.history|, work, x),
             Attempt(|sys.history|, LastRoot(sys), work(LastRoot(sys)).value, work, x));
  }

  /** With the lock free an optimistic transaction left alone runs to its commit. */
  lemma OptimisticCommits(sys: System, st: Store, m: ManagerId, work: Work, x: Details, order: WorkerOrder)
    returns (events: seq<Event>)
    requires SystemInv(sys, st) && PhaseOf(sys, m).Idle? && sys.holder.None? && Interleaves(order)
    requires work(LastRoot(sys)).Some?
    ensures Interleaving(sys, st, events)
    ensures exists p: WalPrepare :: Some(p.envelope) == work(LastRoot(sys)) &&
                                    Finished(sys, Outcome(sys, st, events), m, sys.history, p)
  {
    var first := ReadAndWork(sys, st, m, work, x);
    var sys1 := Outcome(sys, st, first);
    InterleavingKeepsInv(sys, st, first);
    LockDecides(sys1, st, m, order);
    var rest := StartedFinishes(sys1, st, LockAndCheck(m, order), work(LastRoot(sys)).value);
    Continued(sys, st, first, rest);
    events := first + rest;
    var p: WalPrepare :| p.envelope == work(LastRoot(sys)).value &&
                         Finished(sys1, Outcome(sys1, st, rest), m, sys1.history, p);
    assert Finished(sys, Outcome(sys, st, events), m, sys.history, p);
  }
}
