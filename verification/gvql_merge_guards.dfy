/** What can be checked before a MERGE is run twice: which reads stay as they are, and inputs that do not repeat. */
module GvqlMergeGuards {
  import opened EncodedGraph
  import opened GvqlValues
  import opened GvqlExpressions
  import opened GvqlNodeEdits
  import opened GvqlMutations
  import opened GvqlMutationSafety
  import opened GvqlMergeIdempotence

  // An expression depends on the paths it reads.

  type Reading = (string, Option<Path>) -> bool

  /** Every path the expression reads, in conditions too, is as `ok` says. */
  predicate AllReads(e: Expression, ok: Reading)
    decreases e
  {
    match e
    case Constant(_) => true
    case PathOf(alias, path) => ok(alias, path)
    case Binary(_, l, r) => AllReads(l, ok) && AllReads(r, ok)
    case Call(_, args) => forall a | a in args :: AllReads(a, ok)
    case Case(branches, otherwise) =>
      && (forall x | x in branches :: ConditionReads(x.when, ok) && AllReads(x.thenValue, ok))
      && (otherwise.Some? ==> AllReads(otherwise.value, ok))
  }

  predicate ConditionReads(c: Condition, ok: Reading)
    decreases c
  {
    match c
    case Test(p) => AllReads(p.left, ok) && AllReads(p.right, ok)
    case Not(n) => ConditionReads(n, ok)
    case And(l, r) => ConditionReads(l, ok) && ConditionReads(r, ok)
    case Or(l, r) => ConditionReads(l, ok) && ConditionReads(r, ok)
  }

  /** Two rows, each in its surroundings, that give the reads in question the same values. */
  ghost predicate SameReads(cx: Context, cx2: Context, b: Binding, b2: Binding, ok: Reading) {
    && cx.parameters == cx2.parameters && cx.runtime == cx2.runtime
    && forall alias, path | ok(alias, path) :: ReadPath(cx, b, alias, path) == ReadPath(cx2, b2, alias, path)
  }

  lemma {:induction false} SameEvaluation(cx: Context, cx2: Context, b: Binding, b2: Binding, ok: Reading,
                                          e: Expression)
    requires SameReads(cx, cx2, b, b2, ok) && AllReads(e, ok)
    ensures Evaluate(cx, b, e) == Evaluate(cx2, b2, e)
    decreases e, 1
  {
    match e
    case Constant(_) =>
    case PathOf(_, _) =>
    case Binary(_, l, r) =>
      SameEvaluation(cx, cx2, b, b2, ok, l);
      SameEvaluation(cx, cx2, b, b2, ok, r);
    case Call(_, args) => SameArguments(cx, cx2, b, b2, ok, args, e);
    case Case(branches, otherwise) => SameBranches(cx, cx2, b, b2, ok, branches, otherwise, e);
  }

  lemma {:induction false} SameArguments(cx: Context, cx2: Context, b: Binding, b2: Binding, ok: Reading,
                                         es: seq<Expression>, owner: Expression)
    requires SameReads(cx, cx2, b, b2, ok) && forall e | e in es :: e < owner && AllReads(e, ok)
    ensures EvaluateAll(cx, b, es, owner) == EvaluateAll(cx2, b2, es, owner)
    decreases owner, 0, |es|
  {
    if es != [] {
      assert es[0] in es && forall e | e in es[1..] :: e in es;
      SameEvaluation(cx, cx2, b, b2, ok, es[0]);
      SameArguments(cx, cx2, b, b2, ok, es[1..], owner);
    }
  }

  lemma {:induction false} SameBranches(cx: Context, cx2: Context, b: Binding, b2: Binding, ok: Reading,
                                        branches: seq<Branch>, otherwise: Option<Expression>, owner: Expression)
    requires SameReads(cx, cx2, b, b2, ok)
    requires forall x | x in branches :: x < owner && ConditionReads(x.when, ok) && AllReads(x.thenValue, ok)
    requires otherwise.Some? ==> otherwise.value < owner && AllReads(otherwise.value, ok)
    ensures EvaluateBranches(cx, b, branches, otherwise, owner) == EvaluateBranches(cx2, b2, branches, otherwise, owner)
    decreases owner, 0, |branches|
  {
    if branches == [] {
      if otherwise.Some? {
        SameEvaluation(cx, cx2, b, b2, ok, otherwise.value);
      }
    } else {
      var x := branches[0];
      assert x in branches && forall y | y in branches[1..] :: y in branches;
      SameDecision(cx, cx2, b, b2, ok, x.when);
      SameEvaluation(cx, cx2, b, b2, ok, x.thenValue);
      SameBranches(cx, cx2, b, b2, ok, branches[1..], otherwise, owner);
    }
  }

  lemma {:induction false} SameDecision(cx: Context, cx2: Context, b: Binding, b2: Binding, ok: Reading, c: Condition)
    requires SameReads(cx, cx2, b, b2, ok) && ConditionReads(c, ok)
    ensures Decide(cx, b, c) == Decide(cx2, b2, c)
    decreases c
  {
    match c
    case Test(p) =>
      SameEvaluation(cx, cx2, b, b2, ok, p.left);
      SameEvaluation(cx, cx2, b, b2, ok, p.right);
    case Not(n) => SameDecision(cx, cx2, b, b2, ok, n);
    case And(l, r) =>
      SameDecision(cx, cx2, b, b2, ok, l);
      SameDecision(cx, cx2, b, b2, ok, r);
    case Or(l, r) =>
      SameDecision(cx, cx2, b, b2, ok, l);
      SameDecision(cx, cx2, b, b2, ok, r);
  }

  predicate FieldReads(fields: seq<Field>, ok: Reading) {
    forall fl | fl in fields :: AllReads(fl.value, ok)
  }

  lemma {:induction false} SameFields(cx: Context, cx2: Context, b: Binding, b2: Binding, ok: Reading,
                                      fields: seq<Field>)
    requires SameReads(cx, cx2, b, b2, ok) && FieldReads(fields, ok)
    ensures EvaluateFields(cx, b, fields) == EvaluateFields(cx2, b2, fields)
    decreases |fields|
  {
    if fields != [] {
      var front, last := fields[..|fields| - 1], fields[|fields| - 1];
      assert last in fields && forall fl | fl in front :: fl in fields;
      SameEvaluation(cx, cx2, b, b2, ok, last.value);
      SameFields(cx, cx2, b, b2, ok, front);
    }
  }

  // MERGE adds properties under the names it merges into, and no others.

  ghost predicate KeepsOutside(starts: set<string>, node: EncodedNode, node': EncodedNode) {
    node.ObjectNode? && node'.ObjectNode? ==>
      forall name | name !in starts :: FindProperty(node'.props, name) == FindProperty(node.props, name)
  }

  ghost predicate Within(starts: set<string>, nodes: map<ObjectId, EncodedNode>, nodes': map<ObjectId, EncodedNode>) {
    forall id | id in nodes && id in nodes' :: KeepsOutside(starts, nodes[id], nodes'[id])
  }

  lemma WithinTrans(starts: set<string>, a: map<ObjectId, EncodedNode>, b: map<ObjectId, EncodedNode>,
                    c: map<ObjectId, EncodedNode>)
    requires Within(starts, a, b) && Within(starts, b, c) && Grown(a, b)
    ensures Within(starts, a, c)
  {
    forall id | id in a && id in c ensures KeepsOutside(starts, a[id], c[id]) {
      assert id in b && NodeGrown(a[id], b[id]);
      assert KeepsOutside(starts, a[id], b[id]) && KeepsOutside(starts, b[id], c[id]);
    }
  }

  lemma PutWithin(starts: set<string>, nodes: map<ObjectId, EncodedNode>, id: ObjectId, node: EncodedNode)
    requires id in nodes ==> KeepsOutside(starts, nodes[id], node)
    ensures Within(starts, nodes, nodes[id := node])
  {
  }

  lemma StartWithin(starts: set<string>, st: Edit, parent: ObjectId, into: Target, id: ObjectId)
    requires parent in st.nodes && st.nodes[parent].ObjectNode? && into.path.Some? && into.path.value.text in starts
    ensures Within(starts, st.nodes, StartCollection(st, parent, into, id).nodes)
  {
    var collection, node, name := NextId(st.nodes), st.nodes[parent], into.path.value.text;
    var node' := node.(props := SetProperty(node.props, name, Ref(collection)));
    forall q | q !in starts ensures FindProperty(node'.props, q) == FindProperty(node.props, q) {
      SetPropertyReads(node.props, name, Ref(collection), q);
    }
  }

  lemma AttachWithin(starts: set<string>, st: Edit, b: Binding, into: Target, id: ObjectId)
    requires AttachCreated(st, b, into, id).Some? && (into.path.Some? ==> into.path.value.text in starts)
    ensures Within(starts, st.nodes, AttachCreated(st, b, into, id).value.nodes)
  {
    var parent := b[into.alias];
    if into.path.Some? {
      var existing := GetNodePath(st.nodes[parent], into.path.value);
      if existing.None? {
        StartWithin(starts, st, parent, into, id);
      }
    }
  }

  ghost predicate MergesWithin(starts: set<string>, c: MergeClause) {
    c.create.into.path.Some? ==> c.create.into.path.value.text in starts
  }

  lemma StepWithin(starts: set<string>, f: Frame, st: Edit, job: Job<MergeClause>)
    requires MergeStep(f, st, job).Some? && MergesWithin(starts, job.item)
    ensures Within(starts, st.nodes, MergeStep(f, st, job).value.nodes)
  {
    if JobCandidate(f, st, job).NotFound? {
      var c, props, on := job.item.create, JobProps(f, st, job).value, job.item.on.value;
      var made := Made(st, job.row, c, props, Merging, on.text);
      CreateGrows(st, job.row, c, props, Merging, on.text);
      PutWithin(starts, st.nodes, NextId(st.nodes), ObjectNode(c.typeName, props));
      AttachWithin(starts, made, made.bindings[job.row], c.into, NextId(st.nodes));
      WithinTrans(starts, st.nodes, made.nodes, MergeStep(f, st, job).value.nodes);
    }
  }

  // Which reads stay as they are.

  /** The position holds a value, or nothing a MERGE starts or appends can come to stand there. */
  predicate Settled(node: EncodedNode, path: Path, starts: set<string>) {
    || GetNodePath(node, path).Some?
    || (if node.ObjectNode? then path.text !in starts else node.MapNode? || node.LazyNode? || !path.shape.Item?)
  }

  lemma SettledReads(starts: set<string>, node: EncodedNode, node': EncodedNode, path: Path)
    requires NodeGrown(node, node') && KeepsOutside(starts, node, node') && Settled(node, path, starts)
    ensures GetNodePath(node', path) == GetNodePath(node, path) && Settled(node', path, starts)
  {
    GrownReads(node, node', path);
  }

  predicate IsVirtual(path: Path) {
    path.text == KIND_PATH || path.text == TYPE_PATH
  }

  /**
   * Checked on the starting graph: the read is of a settled position of a node that is there, not of a whole node. An
   * alias that a MERGE binds may then denote another node; a plain property is read from it that no MERGE starts.
   */
  predicate ReadStays(cx: Context, b: Binding, created: set<string>, starts: set<string>, alias: string,
                      path: Option<Path>) {
    && (alias in b || alias in created ==> path.Some?)
    && (alias in b ==> b[alias] in cx.nodes)
    && (alias in created ==> path.value.shape.Name? && path.value.text !in starts && !IsVirtual(path.value))
    && (alias in b && alias !in created ==>
          || path.value.text == ID_PATH
          || (if IsVirtual(path.value) then b[alias] in cx.indexed
              else Settled(cx.nodes[b[alias]], path.value, starts)))
  }

  function Staying(cx: Context, b: Binding, created: set<string>, starts: set<string>): Reading {
    (alias, path) => ReadStays(cx, b, created, starts, alias, path)
  }

  /** The later run knows the same parameters, and the kinds and types of the nodes the first one knew. */
  ghost predicate LaterRun(cx: Context, cx2: Context) {
    && cx.parameters == cx2.parameters && cx.runtime == cx2.runtime
    && forall id | id in cx.indexed ::
         id in cx2.indexed && KindOf(cx2.indexed[id]) == KindOf(cx.indexed[id]) &&
         TypeOf(cx2.indexed[id]) == TypeOf(cx.indexed[id])
  }

  ghost predicate Later(starts: set<string>, nodes: map<ObjectId, EncodedNode>, nodes': map<ObjectId, EncodedNode>) {
    Grown(nodes, nodes') && Within(starts, nodes, nodes')
  }

  lemma LaterTrans(starts: set<string>, a: map<ObjectId, EncodedNode>, b: map<ObjectId, EncodedNode>,
                   c: map<ObjectId, EncodedNode>)
    requires Later(starts, a, b) && Later(starts, b, c)
    ensures Later(starts, a, c)
  {
    GrownTrans(a, b, c);
    WithinTrans(starts, a, b, c);
  }

  /** An alias of a row during the run: bound as at the start, or by a MERGE to a node that is there. */
  ghost predicate AliasFrom(created: set<string>, b: Binding, now: Binding, nodes: map<ObjectId, EncodedNode>,
                            alias: string) {
    if alias in now then (alias in b && now[alias] == b[alias]) || (alias in created && now[alias] in nodes)
    else alias !in b
  }

  ghost predicate RowsFrom(created: set<string>, st: Edit, now: Edit) {
    && |now.bindings| == |st.bindings|
    && forall i, alias | 0 <= i < |st.bindings| :: AliasFrom(created, st.bindings[i], now.bindings[i], now.nodes, alias)
  }

  /** A read that stays gives in a later graph what it gives during the run. */
  lemma StayingRead(cx: Context, cx2: Context, b: Binding, now: Binding, created: set<string>, starts: set<string>,
                    nodes: map<ObjectId, EncodedNode>, nodes': map<ObjectId, EncodedNode>,
                    alias: string, path: Option<Path>)
    requires ReadStays(cx, b, created, starts, alias, path) && AliasFrom(created, b, now, nodes, alias)
    requires Later(starts, cx.nodes, nodes) && Later(starts, nodes, nodes') && LaterRun(cx, cx2)
    ensures ReadPath(cx.(nodes := nodes), now, alias, path) == ReadPath(cx2.(nodes := nodes'), now, alias, path)
    ensures alias !in created ==> ReadPath(cx, b, alias, path) == ReadPath(cx.(nodes := nodes), now, alias, path)
  {
    if alias in now {
      var id := now[alias];
      assert id in nodes && NodeGrown(nodes[id], nodes'[id]) && KeepsOutside(starts, nodes[id], nodes'[id]);
      if alias !in created {
        assert NodeGrown(cx.nodes[id], nodes[id]) && KeepsOutside(starts, cx.nodes[id], nodes[id]);
        if path.value.text != ID_PATH && !IsVirtual(path.value) {
          SettledReads(starts, cx.nodes[id], nodes[id], path.value);
          SettledReads(starts, nodes[id], nodes'[id], path.value);
        }
      } else {
        SettledReads(starts, nodes[id], nodes'[id], path.value);
      }
    }
  }

  /** The aliases a list of clauses binds, and the property names it may start. */
  function Aliases(items: seq<MergeClause>): set<string> {
    set c | c in items :: c.create.alias
  }

  function Starts(items: seq<MergeClause>): set<string> {
    set c | c in items && c.create.into.path.Some? :: c.create.into.path.value.text
  }

  ghost predicate FromItems(jobs: seq<Job<MergeClause>>, items: seq<MergeClause>) {
    forall job | job in jobs :: job.item in items
  }

  lemma StepRows(f: Frame, items: seq<MergeClause>, st: Edit, now: Edit, job: Job<MergeClause>)
    requires MergeStep(f, now, job).Some? && RowsFrom(Aliases(items), st, now) && job.item in items
    ensures RowsFrom(Aliases(items), st, MergeStep(f, now, job).value)
    ensures Later(Starts(items), now.nodes, MergeStep(f, now, job).value.nodes)
  {
    var next := MergeStep(f, now, job).value;
    GrownSelf(next.nodes);
    var id := BoundNode(f, now, job, next.nodes);
    MergeStepGrows(f, now, job);
    StepWithin(Starts(items), f, now, job);
    forall i, alias | 0 <= i < |st.bindings|
      ensures AliasFrom(Aliases(items), st.bindings[i], next.bindings[i], next.nodes, alias) {
      assert AliasFrom(Aliases(items), st.bindings[i], now.bindings[i], now.nodes, alias);
    }
  }

  lemma {:induction false} JobsRows(f: Frame, items: seq<MergeClause>, st: Edit, jobs: seq<Job<MergeClause>>)
    requires Fold(st, jobs, MergeSteps(f)).Some? && FromItems(jobs, items)
    ensures var now := Fold(st, jobs, MergeSteps(f)).value;
            RowsFrom(Aliases(items), st, now) && Later(Starts(items), st.nodes, now.nodes)
    decreases |jobs|
  {
    if jobs == [] {
      GrownSelf(st.nodes);
    } else {
      var front, job := jobs[..|jobs| - 1], jobs[|jobs| - 1];
      assert job in jobs && forall j | j in front :: j in jobs;
      JobsRows(f, items, st, front);
      var before := Fold(st, front, MergeSteps(f)).value;
      StepRows(f, items, st, before, job);
      LaterTrans(Starts(items), st.nodes, before.nodes, MergeStep(f, before, job).value.nodes);
    }
  }

  /** Every path a field reads stays as it is: checked row by row on the starting graph. */
  predicate Steady(f: Frame, st: Edit, items: seq<MergeClause>) {
    forall row, c | 0 <= row < |st.bindings| && c in items :: SteadyClause(f, st, items, row, c)
  }

  predicate SteadyClause(f: Frame, st: Edit, items: seq<MergeClause>, row: nat, c: MergeClause)
    requires row < |st.bindings|
  {
    FieldReads(c.create.fields, Staying(At(f, st), st.bindings[row], Aliases(items), Starts(items)))
  }

  /** A job of a steady statement computes in the final graph the properties it computed in the first run. */
  lemma SteadyJob(f: Frame, f2: Frame, st: Edit, items: seq<MergeClause>, now: Edit, job: Job<MergeClause>,
                  nodes': map<ObjectId, EncodedNode>)
    requires job.row < |st.bindings| && job.item in items && Steady(f, st, items) && LaterRun(f.cx, f2.cx)
    requires RowsFrom(Aliases(items), st, now) && Later(Starts(items), st.nodes, now.nodes)
    requires Later(Starts(items), now.nodes, nodes')
    ensures JobProps(f2, Edit(nodes', now.bindings, []), job) == JobProps(f, now, job)
  {
    var created, starts := Aliases(items), Starts(items);
    var b, b2 := st.bindings[job.row], now.bindings[job.row];
    var ok := Staying(At(f, st), b, created, starts);
    assert SteadyClause(f, st, items, job.row, job.item);
    var again := At(f2, Edit(nodes', now.bindings, []));
    forall alias, path | ok(alias, path)
      ensures ReadPath(At(f, now), b2, alias, path) == ReadPath(again, b2, alias, path) {
      StayingRead(At(f, st), f2.cx, b, b2, created, starts, now.nodes, nodes', alias, path);
    }
    SameFields(At(f, now), again, b2, b2, ok, job.item.create.fields);
  }

  /** Every clause that merges into its own alias found its node. */
  ghost predicate OwnAliasesFind(f: Frame, st: Edit, jobs: seq<Job<MergeClause>>)
    requires Fold(st, jobs, MergeSteps(f)).Some?
  {
    jobs != [] ==>
      var front, job := jobs[..|jobs| - 1], jobs[|jobs| - 1];
      OwnAliasesFind(f, st, front) && OwnAliasFinds(f, Fold(st, front, MergeSteps(f)).value, job)
  }

  lemma {:induction false} SteadyJobs(f: Frame, f2: Frame, st: Edit, items: seq<MergeClause>,
                                      jobs: seq<Job<MergeClause>>, nodes': map<ObjectId, EncodedNode>)
    requires Fold(st, jobs, MergeSteps(f)).Some? && FromItems(jobs, items)
    requires Steady(f, st, items) && LaterRun(f.cx, f2.cx)
    requires Later(Starts(items), Fold(st, jobs, MergeSteps(f)).value.nodes, nodes')
    ensures Repeatable(f, f2, st, jobs, nodes') <==> OwnAliasesFind(f, st, jobs)
    decreases |jobs|
  {
    if jobs != [] {
      var front, job := jobs[..|jobs| - 1], jobs[|jobs| - 1];
      assert job in jobs && forall j | j in front :: j in jobs;
      var before := Fold(st, front, MergeSteps(f)).value;
      JobsRows(f, items, st, front);
      StepRows(f, items, st, before, job);
      LaterTrans(Starts(items), before.nodes, MergeStep(f, before, job).value.nodes, nodes');
      SteadyJobs(f, f2, st, items, front, nodes');
      SteadyJob(f, f2, st, items, before, job, nodes');
    }
  }

  lemma {:induction false} JobItems<I>(rows: nat, items: seq<I>, job: Job<I>)
    requires job in Jobs(rows, items)
    ensures job.item in items
  {
    if job in Jobs(rows - 1, items) {
      JobItems(rows - 1, items, job);
    } else {
      RowItems(rows - 1, items, job);
    }
  }

  lemma {:induction false} RowItems<I>(row: nat, items: seq<I>, job: Job<I>)
    requires job in RowJobs(row, items)
    ensures job.item in items
    decreases |items|
  {
    if job in RowJobs(row, items[..|items| - 1]) {
      RowItems(row, items[..|items| - 1], job);
    }
  }

  /**
   * If every path a field reads stays as it is, a second run repeats the first exactly when no ON value is a big
   * integer and every clause that merges into its own alias found its node; a big integer makes it fail.
   */
  lemma SteadyMergeTwice(f: Frame, f2: Frame, nodes: map<ObjectId, EncodedNode>, bindings: seq<Binding>,
                         items: seq<MergeClause>)
    requires Healthy(f.root, nodes) && MergeAll(f, Edit(nodes, bindings, []), items).Some?
    requires Steady(f, Edit(nodes, bindings, []), items) && LaterRun(f.cx, f2.cx)
    ensures var st, jobs := Edit(nodes, bindings, []), Jobs(|bindings|, items);
            var first := MergeAll(f, st, items).value;
            && (RunsAlike(f, f2, st, jobs, first.nodes) <==> OwnAliasesFind(f, st, jobs) && NoBigIntegers(f, st, jobs))
            && (OwnAliasesFind(f, st, jobs) ==>
                  MergeAll(f2, Edit(first.nodes, bindings, []), items) ==
                  if NoBigIntegers(f, st, jobs) then Some(Edit(first.nodes, first.bindings, [])) else None)
  {
    var st, jobs := Edit(nodes, bindings, []), Jobs(|bindings|, items);
    var first := MergeAll(f, st, items).value;
    forall job | job in jobs ensures job.item in items {
      JobItems(|bindings|, items, job);
    }
    GrownSelf(first.nodes);
    SteadyJobs(f, f2, st, items, jobs, first.nodes);
    MergeRepeatsIff(f, f2, nodes, bindings, items);
    if OwnAliasesFind(f, st, jobs) {
      MergeTwice(f, f2, nodes, bindings, items);
    }
  }

  // Big integers seen from the start.

  /** No field reads an alias that a clause of the statement binds. */
  predicate ReadsOnlyRows(items: seq<MergeClause>) {
    forall c | c in items :: FieldReads(c.create.fields, (alias, path) => alias !in Aliases(items))
  }

  /** No clause has a big integer as its ON value, evaluated on the starting graph. */
  predicate StartsWithoutBigIntegers(f: Frame, st: Edit, jobs: seq<Job<MergeClause>>) {
    forall job | job in jobs && job.row < |st.bindings| && job.item.on.Some? && JobProps(f, st, job).Some? ::
      !OnValue(JobProps(f, st, job).value, job.item.on.value).JsBigInt?
  }

  lemma StartProps(f: Frame, st: Edit, items: seq<MergeClause>, now: Edit, job: Job<MergeClause>)
    requires job.row < |st.bindings| && job.item in items && Steady(f, st, items) && ReadsOnlyRows(items)
    requires RowsFrom(Aliases(items), st, now) && Later(Starts(items), st.nodes, now.nodes)
    ensures JobProps(f, now, job) == JobProps(f, st, job)
  {
    var created, starts := Aliases(items), Starts(items);
    var b, b2 := st.bindings[job.row], now.bindings[job.row];
    var fields := job.item.create.fields;
    var stays: Reading := Staying(At(f, st), b, created, starts);
    var old': Reading := (alias, path) => alias !in created;
    var ok: Reading := (alias, path) => stays(alias, path) && old'(alias, path);
    assert SteadyClause(f, st, items, job.row, job.item);
    forall fl | fl in fields ensures AllReads(fl.value, ok) {
      BothReads(fl.value, stays, old', ok);
    }
    GrownSelf(now.nodes);
    forall alias, path | ok(alias, path)
      ensures ReadPath(At(f, st), b, alias, path) == ReadPath(At(f, now), b2, alias, path) {
      StayingRead(At(f, st), f.cx, b, b2, created, starts, now.nodes, now.nodes, alias, path);
    }
    SameFields(At(f, st), At(f, now), b, b2, ok, fields);
  }

  lemma {:induction false} BothReads(e: Expression, p: Reading, q: Reading, both: Reading)
    requires AllReads(e, p) && AllReads(e, q)
    requires forall alias, path | p(alias, path) && q(alias, path) :: both(alias, path)
    ensures AllReads(e, both)
    decreases e
  {
    match e
    case Constant(_) =>
    case PathOf(_, _) =>
    case Binary(_, l, r) =>
      BothReads(l, p, q, both);
      BothReads(r, p, q, both);
    case Call(_, args) =>
      forall a | a in args ensures AllReads(a, both) {
        BothReads(a, p, q, both);
      }
    case Case(branches, otherwise) =>
      forall x | x in branches ensures ConditionReads(x.when, both) && AllReads(x.thenValue, both) {
        BothConditionReads(x.when, p, q, both);
        BothReads(x.thenValue, p, q, both);
      }
      if otherwise.Some? {
        BothReads(otherwise.value, p, q, both);
      }
  }

  lemma {:induction false} BothConditionReads(c: Condition, p: Reading, q: Reading, both: Reading)
    requires ConditionReads(c, p) && ConditionReads(c, q)
    requires forall alias, path | p(alias, path) && q(alias, path) :: both(alias, path)
    ensures ConditionReads(c, both)
    decreases c
  {
    match c
    case Test(t) =>
      BothReads(t.left, p, q, both);
      BothReads(t.right, p, q, both);
    case Not(n) => BothConditionReads(n, p, q, both);
    case And(l, r) =>
      BothConditionReads(l, p, q, both);
      BothConditionReads(r, p, q, both);
    case Or(l, r) =>
      BothConditionReads(l, p, q, both);
      BothConditionReads(r, p, q, both);
  }

  lemma {:induction false} StartDecides(f: Frame, st: Edit, items: seq<MergeClause>, jobs: seq<Job<MergeClause>>)
    requires Fold(st, jobs, MergeSteps(f)).Some? && FromItems(jobs, items)
    requires Steady(f, st, items) && ReadsOnlyRows(items)
    ensures NoBigIntegers(f, st, jobs) <==> StartsWithoutBigIntegers(f, st, jobs)
    decreases |jobs|
  {
    if jobs != [] {
      var front, job := jobs[..|jobs| - 1], jobs[|jobs| - 1];
      assert jobs == front + [job];
      assert job in jobs && forall j | j in front :: j in jobs;
      JobsRows(f, items, st, front);
      StartDecides(f, st, items, front);
      StartProps(f, st, items, Fold(st, front, MergeSteps(f)).value, job);
    }
  }

  // Three statements that do not repeat.

  /** One clause on one row. */
  lemma OneMerge(f: Frame, st: Edit, c: MergeClause)
    requires |st.bindings| == 1
    ensures MergeAll(f, st, [c]) == MergeStep(f, st, Job(0, c))
  {
    var jobs, none: seq<Job<MergeClause>> := [Job(0, c)], [];
    assert [c][..0] == [];
    assert RowJobs(0, [c]) == jobs;
    assert Jobs<MergeClause>(0, [c]) == [];
    assert jobs[..0] == none;
    assert Fold(st, none, MergeSteps(f)) == Some(st);
  }

  /** A clause of one field, written as a constant that can be stored. */
  lemma OneConstant(cx: Context, b: Binding, name: string, v: JsValue)
    requires JsToEncoded(v).Some?
    ensures EvaluateFields(cx, b, [Field(name, Constant(Value(v)))]) == Some([Property(name, JsToEncoded(v).value)])
  {
    var fields, none: seq<Property> := [Field(name, Constant(Value(v)))], [];
    assert fields[..0] == [];
    assert EvaluateFields(cx, b, fields[..0]) == Some(none);
    assert none + [Property(name, JsToEncoded(v).value)] == [Property(name, JsToEncoded(v).value)];
  }

  const ID := Path("id", Name)
  const ITEMS := Path("items", Name)

  /** `MERGE (x {id: 7n}) INTO all ON x.id`, `all` bound to an empty array. */
  const BIG_INTEGER := MergeClause(CreateClause("x", None, [Field("id", Constant(Value(JsBigInt(7))))],
                                                Target("all", None)), Some(ID))

  /** The first run creates the node, the second one fails on comparing its big integer. */
  lemma BigIntegerFailsAgain(f: Frame)
    requires f.root == Ref(0)
    ensures var nodes, bindings := map[0 := ArrayNode([])], [map["all" := 0]];
            var first := MergeAll(f, Edit(nodes, bindings, []), [BIG_INTEGER]);
            first.Some? && MergeAll(f, Edit(first.value.nodes, bindings, []), [BIG_INTEGER]).None?
  {
    var nodes, bindings := map[0 := ArrayNode([])], [map["all" := 0]];
    var st, job := Edit(nodes, bindings, []), Job(0, BIG_INTEGER);
    OneMerge(f, st, BIG_INTEGER);
    OneConstant(At(f, st), bindings[0], "id", JsBigInt(7));
    assert JobProps(f, st, job) == Some([Property("id", BigInt(7))]);
    assert NextId(nodes) !in nodes;
    var nodes' := MergeStep(f, st, job).value.nodes;
    var again := Edit(nodes', bindings, []);
    OneMerge(f, again, BIG_INTEGER);
    OneConstant(At(f, again), bindings[0], "id", JsBigInt(7));
    GrownSelf(nodes');
    JobAgain(f, f, st, job, nodes');
  }

  /** `MERGE (x {id: "a", note: r.items}) INTO r.items ON x.id`, `r` bound to an object without `items`. */
  const READS_TARGET := MergeClause(CreateClause("x", None, READS_TARGET_FIELDS, Target("r", Some(ITEMS))), Some(ID))
  const READS_TARGET_FIELDS := [Field("id", Constant(Value(JsString("a")))), Field("note", PathOf("r", Some(ITEMS)))]

  lemma ReadsTargetFields(cx: Context, b: Binding)
    requires "r" in b && b["r"] in cx.nodes && cx.nodes[b["r"]].ObjectNode?
    ensures var read := FindProperty(cx.nodes[b["r"]].props, "items");
            EvaluateFields(cx, b, READS_TARGET_FIELDS) ==
            if read.None? then Some([Property("id", Text("a")), Property("note", Undefined)])
            else if JsToEncoded(EncodedToJs(read.value)).None? then None
            else Some([Property("id", Text("a")), Property("note", JsToEncoded(EncodedToJs(read.value)).value)])
  {
    var front := READS_TARGET_FIELDS[..1];
    assert front == [Field("id", Constant(Value(JsString("a"))))];
    OneConstant(cx, b, "id", JsString("a"));
    var read := PathToJs(FindProperty(cx.nodes[b["r"]].props, "items"));
    assert Evaluate(cx, b, READS_TARGET_FIELDS[1].value) == Some(read);
    if JsToEncoded(read).Some? {
      var last := Property("note", JsToEncoded(read).value);
      assert [Property("id", Text("a"))] + [last] == [Property("id", Text("a")), last];
    }
  }

  /** Where the property merged into is missing, the parent holds a reference there afterwards. */
  lemma TargetIsStarted(st: Edit, row: nat, c: CreateClause, props: seq<Property>, path: string)
    requires row < |st.bindings| && c.alias != c.into.alias && c.into.path.Some?
    requires var b, into := st.bindings[row], c.into;
             && into.alias in b && b[into.alias] in st.nodes && st.nodes[b[into.alias]].ObjectNode?
             && FindProperty(st.nodes[b[into.alias]].props, into.path.value.text).None?
    ensures var st', parent := CreateNode(st, row, c, props, Merging, path), st.bindings[row][c.into.alias];
            && st'.Some? && parent in st'.value.nodes && st'.value.nodes[parent].ObjectNode?
            && var read := FindProperty(st'.value.nodes[parent].props, c.into.path.value.text);
               read.Some? && read.value.Ref?
  {
    var parent, name, made := st.bindings[row][c.into.alias], c.into.path.value.text,
        Made(st, row, c, props, Merging, path);
    assert NextId(st.nodes) != parent && made.nodes[parent] == st.nodes[parent];
    SetPropertyReads(st.nodes[parent].props, name, Ref(NextId(made.nodes)), name);
  }

  lemma ReadsMissingTarget(f: Frame, st: Edit)
    requires |st.bindings| == 1 && "r" in st.bindings[0] && st.bindings[0]["r"] in st.nodes
    requires var node := st.nodes[st.bindings[0]["r"]]; node.ObjectNode? && FindProperty(node.props, "items").None?
    ensures MergeAll(f, st, [READS_TARGET]) ==
            CreateNode(st, 0, READS_TARGET.create, [Property("id", Text("a")), Property("note", Undefined)], Merging,
                       "id")
  {
    OneMerge(f, st, READS_TARGET);
    ReadsTargetFields(At(f, st), st.bindings[0]);
    CreatesUnfound(f, st, Job(0, READS_TARGET), [Property("id", Text("a")), Property("note", Undefined)]);
  }

  lemma ReadsPresentTarget(f: Frame, st: Edit)
    requires |st.bindings| == 1 && "r" in st.bindings[0] && st.bindings[0]["r"] in st.nodes
    requires var node := st.nodes[st.bindings[0]["r"]];
             && node.ObjectNode? && FindProperty(node.props, "items").Some?
             && FindProperty(node.props, "items").value.Ref?
    ensures MergeAll(f, st, [READS_TARGET]).None?
  {
    OneMerge(f, st, READS_TARGET);
    ReadsTargetFields(At(f, st), st.bindings[0]);
  }

  /** The first run starts the collection, the second one reads a reference to it and fails to store it. */
  lemma ReadingTargetFailsAgain(f: Frame, nodes: map<ObjectId, EncodedNode>, r: ObjectId)
    requires r in nodes && nodes[r].ObjectNode? && FindProperty(nodes[r].props, "items").None?
    ensures var bindings := [map["r" := r]];
            var first := MergeAll(f, Edit(nodes, bindings, []), [READS_TARGET]);
            first.Some? && MergeAll(f, Edit(first.value.nodes, bindings, []), [READS_TARGET]).None?
  {
    var st := Edit(nodes, [map["r" := r]], []);
    ReadsMissingTarget(f, st);
    TargetIsStarted(st, 0, READS_TARGET.create, [Property("id", Text("a")), Property("note", Undefined)], "id");
    ReadsPresentTarget(f, Edit(MergeAll(f, st, [READS_TARGET]).value.nodes, st.bindings, []));
  }

  /** `MERGE (x {id: "a"}) INTO x.items ON x.id`, `x` bound to an object without `items`. */
  const OWN_ALIAS := MergeClause(CreateClause("x", None, [Field("id", Constant(Value(JsString("a"))))],
                                              Target("x", Some(ITEMS))), Some(ID))

  /** The first run attaches the new node to itself, so the second one does not find it and reports another. */
  lemma OwnAliasDoesNotRepeat(f: Frame, nodes: map<ObjectId, EncodedNode>, x: ObjectId)
    requires Healthy(f.root, nodes)
    requires x in nodes && nodes[x].ObjectNode? && FindProperty(nodes[x].props, "items").None?
    ensures var bindings := [map["x" := x]];
            var first := MergeAll(f, Edit(nodes, bindings, []), [OWN_ALIAS]);
            && first.Some?
            && var second := MergeAll(f, Edit(first.value.nodes, bindings, []), [OWN_ALIAS]);
               second.Some? && second.value.changes != []
  {
    var bindings, job := [map["x" := x]], Job(0, OWN_ALIAS);
    var st, props := Edit(nodes, bindings, []), [Property("id", Text("a"))];
    OneMerge(f, st, OWN_ALIAS);
    OneConstant(At(f, st), bindings[0], "id", JsString("a"));
    CreatesUnfound(f, st, job, props);
    assert CreateNode(st, 0, OWN_ALIAS.create, props, Merging, "id").Some?;
    var again := Edit(MergeStep(f, st, job).value.nodes, bindings, []);
    OneMerge(f, again, OWN_ALIAS);
    OneConstant(At(f, again), bindings[0], "id", JsString("a"));
    OwnAliasCreatesAgain(f, f, st, job);
  }
}
