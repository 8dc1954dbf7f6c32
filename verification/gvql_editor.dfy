/** `applyGvqlMutations` in place: the loops of a statement over rows and clauses. */
module GvqlEditor {
  import opened EncodedGraph
  import opened GvqlValues
  import opened GvqlExpressions
  import opened GvqlIndex
  import opened GvqlNodeEdits
  import opened GvqlMutations

  lemma FoldNext<I>(st: Edit, jobs: seq<Job<I>>, job: Job<I>, step: (Edit, Job<I>) -> Option<Edit>)
    ensures Fold(st, jobs + [job], step) ==
            var before := Fold(st, jobs, step);
            if before.None? then None else step(before.value, job)
  {
    assert (jobs + [job])[..|jobs|] == jobs;
  }

  /** The jobs up to clause `j` of row `i`. */
  function JobsTo<I>(i: nat, j: nat, items: seq<I>): seq<Job<I>>
    requires j <= |items|
  {
    Jobs(i, items) + RowJobs(i, items[..j])
  }

  lemma JobsStart<I>(items: seq<I>)
    ensures JobsTo(0, 0, items) == []
  {
  }

  lemma JobsStep<I>(i: nat, j: nat, items: seq<I>)
    requires j < |items|
    ensures JobsTo(i, j + 1, items) == JobsTo(i, j, items) + [Job(i, items[j])]
  {
    assert items[..j + 1][..j] == items[..j];
  }

  lemma JobsRow<I>(i: nat, items: seq<I>)
    ensures JobsTo(i, |items|, items) == JobsTo(i + 1, 0, items) == Jobs(i + 1, items)
  {
    assert items[..|items|] == items;
    assert Jobs(i + 1, items) + [] == Jobs(i + 1, items);
  }

  lemma {:induction false} FailureStays<I>(st: Edit, jobs: seq<Job<I>>, more: seq<Job<I>>,
                                           step: (Edit, Job<I>) -> Option<Edit>)
    requires Fold(st, jobs, step).None?
    ensures Fold(st, jobs + more, step).None?
    decreases |more|
  {
    if more == [] {
      assert jobs + more == jobs;
    } else {
      assert jobs + more == (jobs + more[..|more| - 1]) + [more[|more| - 1]];
      FailureStays(st, jobs, more[..|more| - 1], step);
      FoldNext(st, jobs + more[..|more| - 1], more[|more| - 1], step);
    }
  }

  lemma {:induction false} RowsGrow<I>(i: nat, n: nat, items: seq<I>) returns (more: seq<Job<I>>)
    requires i <= n
    ensures Jobs(n, items) == Jobs(i, items) + more
    decreases n - i
  {
    if i == n {
      more := [];
    } else {
      var rest := RowsGrow(i, n - 1, items);
      more := rest + RowJobs(n - 1, items);
    }
  }

  lemma {:induction false} RowGrows<I>(i: nat, j: nat, items: seq<I>) returns (more: seq<Job<I>>)
    requires j <= |items|
    ensures RowJobs(i, items) == RowJobs(i, items[..j]) + more
    decreases |items|
  {
    if j == |items| {
      assert items[..j] == items;
      more := [];
    } else {
      var rest := RowGrows(i, j, items[..|items| - 1]);
      assert items[..|items| - 1][..j] == items[..j];
      more := rest + [Job(i, items[|items| - 1])];
    }
  }

  lemma Regroup<T>(a: seq<T>, b: seq<T>, c: seq<T>, d: seq<T>)
    ensures a + (b + c) + d == (a + b) + (c + d)
  {
  }

  /** A failed job fails the whole clause list. */
  lemma FailsAll<I>(st: Edit, i: nat, j: nat, n: nat, items: seq<I>, step: (Edit, Job<I>) -> Option<Edit>)
    requires i < n && j <= |items| && Fold(st, JobsTo(i, j, items), step).None?
    ensures Fold(st, Jobs(n, items), step).None?
  {
    var row := RowGrows(i, j, items);
    var rest := RowsGrow(i + 1, n, items);
    assert Jobs(i + 1, items) == Jobs(i, items) + (RowJobs(i, items[..j]) + row);
    Regroup(Jobs(i, items), RowJobs(i, items[..j]), row, rest);
    FailureStays(st, JobsTo(i, j, items), row + rest, step);
  }

  class Editor {
    const frame: Frame
    var nodes: map<ObjectId, EncodedNode>
    var bindings: seq<Binding>
    var changes: seq<Change>

    constructor (frame: Frame, nodes: map<ObjectId, EncodedNode>, bindings: seq<Binding>)
      ensures this.frame == frame && State() == Edit(nodes, bindings, [])
    {
      this.frame := frame;
      this.nodes, this.bindings, this.changes := nodes, bindings, [];
    }

    function State(): Edit
      reads this
    {
      Edit(nodes, bindings, changes)
    }

    method Record(id: ObjectId, node: EncodedNode, change: Change)
      modifies this`nodes, this`changes
      ensures State() == Edited(old(State()), id, node, change)
    {
      changes := changes + [change];
      nodes := nodes[id := node];
    }

    /** One SET clause on one row. */
    method SetOne(row: nat, item: SetClause) returns (ok: bool)
      modifies this
      ensures ok ==> Some(State()) == SetStep(frame, old(State()), Job(row, item))
      ensures !ok ==> SetStep(frame, old(State()), Job(row, item)) == None
    {
      var id := Denoted(State(), row, item.target.alias);
      if id.None? {
        return true;
      }
      var value := Evaluate(At(frame, State()), bindings[row], item.value);
      if value.None? || JsToEncoded(value.value).None? || item.target.path.None? {
        return false;
      }
      var node, next, path := nodes[id.value], JsToEncoded(value.value).value, item.target.path.value;
      var written := SetNodePath(node, path, next);
      if written.None? {
        return false;
      }
      Record(id.value, written.value,
             Change(id.value, item.target.alias, path.text, Setting, PathToJs(GetNodePath(node, path)),
                    EncodedToJs(next)));
      ok := true;
    }

    /** `applySet`. */
    method ApplySet(items: seq<SetClause>) returns (ok: bool)
      modifies this
      ensures ok ==> SetAll(frame, old(State()), items) == Some(State())
      ensures !ok ==> SetAll(frame, old(State()), items) == None
    {
      ghost var st := State();
      var rows := |bindings|;
      ghost var step := SetSteps(frame);
      JobsStart(items);
      for i := 0 to rows
        invariant Fold(st, JobsTo(i, 0, items), step) == Some(State())
      {
        for j := 0 to |items|
          invariant Fold(st, JobsTo(i, j, items), step) == Some(State())
        {
          JobsStep(i, j, items);
          FoldNext(st, JobsTo(i, j, items), Job(i, items[j]), step);
          ok := SetOne(i, items[j]);
          if !ok {
            FailsAll(st, i, j + 1, rows, items, step);
            return;
          }
        }
        JobsRow(i, items);
      }
      assert JobsTo(rows, 0, items) == Jobs(rows, items);
      ok := true;
    }

    /** One REMOVE clause on one row. */
    method RemoveOne(row: nat, item: Target) returns (ok: bool)
      modifies this
      ensures ok ==> Some(State()) == RemoveStep(old(State()), Job(row, item))
      ensures !ok ==> RemoveStep(old(State()), Job(row, item)) == None
    {
      var id := Denoted(State(), row, item.alias);
      if id.None? {
        return true;
      }
      var node := nodes[id.value];
      if !node.ObjectNode? || item.path.None? {
        return false;
      }
      var name := item.path.value.text;
      if FindProperty(node.props, name).Some? {
        Record(id.value, node.(props := RemoveProperty(node.props, name)),
               Change(id.value, item.alias, name, Removing, PathToJs(FindProperty(node.props, name)), JsUndefined));
      }
      ok := true;
    }

    /** `applyRemove`. */
    method ApplyRemove(items: seq<Target>) returns (ok: bool)
      modifies this
      ensures ok ==> RemoveAll(old(State()), items) == Some(State())
      ensures !ok ==> RemoveAll(old(State()), items) == None
    {
      ghost var st := State();
      var rows := |bindings|;
      ghost var step := RemoveSteps();
      JobsStart(items);
      for i := 0 to rows
        invariant Fold(st, JobsTo(i, 0, items), step) == Some(State())
      {
        for j := 0 to |items|
          invariant Fold(st, JobsTo(i, j, items), step) == Some(State())
        {
          JobsStep(i, j, items);
          FoldNext(st, JobsTo(i, j, items), Job(i, items[j]), step);
          ok := RemoveOne(i, items[j]);
          if !ok {
            FailsAll(st, i, j + 1, rows, items, step);
            return;
          }
        }
        JobsRow(i, items);
      }
      assert JobsTo(rows, 0, items) == Jobs(rows, items);
      ok := true;
    }

    /** `applyDelete`. */
    method ApplyDelete(delete: seq<string>) returns (ok: bool)
      modifies this
      ensures ok ==> DeleteAll(frame, old(State()), delete) == Some(State())
      ensures !ok ==> DeleteAll(frame, old(State()), delete) == None && State() == old(State())
    {
      if delete == [] {
        return true;
      }
      var doomed := FindDoomed(delete);
      var ids := DoomedIds(doomed);
      if frame.root.Ref? && frame.root.id in ids {
        return false;
      }
      var detaching := FindParents(doomed, ids);
      var deleted := ReportDeleted(doomed);
      changes := changes + detaching + deleted;
      var parents := ChangedIds(detaching);
      DetachParents(parents, ids);
      nodes := nodes - ids;
      assert nodes == Detached(old(nodes), parents, ids);
      ok := true;
    }

    method FindDoomed(delete: seq<string>) returns (doomed: seq<Doomed>)
      ensures doomed == DoomedBy(State(), Jobs(|bindings|, delete))
    {
      doomed := [];
      JobsStart(delete);
      for i := 0 to |bindings|
        invariant doomed == DoomedBy(State(), JobsTo(i, 0, delete))
      {
        for j := 0 to |delete|
          invariant doomed == DoomedBy(State(), JobsTo(i, j, delete))
        {
          JobsStep(i, j, delete);
          assert (JobsTo(i, j, delete) + [Job(i, delete[j])])[..|JobsTo(i, j, delete)|] == JobsTo(i, j, delete);
          var id := Denoted(State(), i, delete[j]);
          if id.Some? && id.value !in DoomedIds(doomed) {
            doomed := doomed + [Doomed(id.value, delete[j])];
          }
        }
        JobsRow(i, delete);
      }
      assert JobsTo(|bindings|, 0, delete) == Jobs(|bindings|, delete);
    }

    method FindParents(doomed: seq<Doomed>, ids: set<ObjectId>) returns (detaching: seq<Change>)
      ensures detaching == AllDetachChanges(frame, nodes, doomed, ids)
    {
      detaching := [];
      for i := 0 to |doomed|
        invariant detaching == AllDetachChanges(frame, nodes, doomed[..i], ids)
      {
        assert doomed[..i + 1][..i] == doomed[..i];
        var target := doomed[i].id;
        var edges := Bucket(frame.incoming, target);
        ghost var before := detaching;
        for j := 0 to |edges|
          invariant detaching == before + DetachChanges(nodes, target, edges[..j], ids)
        {
          assert edges[..j + 1][..j] == edges[..j];
          if edges[j].from !in ids && edges[j].from in nodes {
            detaching := detaching + [Change(edges[j].from, "$parent", edges[j].path, Detaching, JsReference(target),
                                             JsUndefined)];
          }
        }
        assert edges[..|edges|] == edges;
      }
      assert doomed[..|doomed|] == doomed;
    }

    method ReportDeleted(doomed: seq<Doomed>) returns (r: seq<Change>)
      ensures r == DeleteChanges(doomed)
    {
      r := [];
      for i := 0 to |doomed|
        invariant r == DeleteChanges(doomed[..i])
      {
        assert doomed[..i + 1][..i] == doomed[..i];
        r := r + [Change(doomed[i].id, doomed[i].alias, "", Deleting, JsSummary(doomed[i].id), JsUndefined)];
      }
      assert doomed[..|doomed|] == doomed;
    }

    /** Detaches the doomed from every parent. */
    method DetachParents(parents: set<ObjectId>, ids: set<ObjectId>)
      modifies this`nodes
      ensures nodes == map id | id in old(nodes) :: if id in parents then Detach(old(nodes)[id], ids)
              else old(nodes)[id]
    {
      var rest := parents;
      while rest != {}
        invariant rest <= parents
        invariant nodes == map id | id in old(nodes) :: if id in parents - rest then Detach(old(nodes)[id], ids)
                  else old(nodes)[id]
        decreases |rest|
      {
        var parent :| parent in rest;
        rest := rest - {parent};
        if parent in nodes {
          nodes := nodes[parent := Detach(nodes[parent], ids)];
        }
      }
    }

    /** `nextObjectId`. */
    method NextObjectId() returns (id: ObjectId)
      ensures id == NextId(nodes)
    {
      var highest := 0;
      var rest := nodes.Keys;
      while rest != {}
        invariant rest <= nodes.Keys
        invariant forall k | k in SafeIds(nodes) && k !in rest :: k <= highest
        invariant highest == 0 || highest in SafeIds(nodes)
        decreases |rest|
      {
        var k :| k in rest;
        rest := rest - {k};
        if k <= MAX_SAFE_INTEGER && k > highest {
          highest := k;
        }
      }
      id := highest + 1;
      while id in nodes
        invariant FirstFree(nodes, highest + 1) == FirstFree(nodes, id)
        decreases IdsFrom(nodes, id)
      {
        assert id in IdsFrom(nodes, id) && id !in IdsFrom(nodes, id + 1);
        id := id + 1;
      }
    }

    /** `appendToCollection`, reported. */
    method Append(collection: ObjectId, id: ObjectId, alias: string, path: string) returns (ok: bool)
      modifies this`nodes, this`changes
      ensures ok ==> AppendTo(old(State()), collection, id, alias, path) == Some(State())
      ensures !ok ==> AppendTo(old(State()), collection, id, alias, path) == None
    {
      if collection !in nodes || AppendReference(nodes[collection], id).None? {
        return false;
      }
      Record(collection, AppendReference(nodes[collection], id).value,
             Change(collection, alias, path, Attaching, JsUndefined, JsReference(id)));
      ok := true;
    }

    /** `attachCreatedObject`. */
    method Attach(b: Binding, into: Target, id: ObjectId) returns (ok: bool)
      modifies this`nodes, this`changes
      ensures ok ==> AttachCreated(old(State()), b, into, id) == Some(State())
      ensures !ok ==> AttachCreated(old(State()), b, into, id) == None
    {
      if into.alias !in b || b[into.alias] !in nodes {
        return false;
      }
      var parent := b[into.alias];
      if into.path.None? {
        ok := Append(parent, id, into.alias, "");
        return;
      }
      var name := into.path.value.text;
      var existing := GetNodePath(nodes[parent], into.path.value);
      if existing.Some? && existing.value.Ref? {
        ok := Append(existing.value.id, id, into.alias, name);
        return;
      }
      if existing.Some? || !nodes[parent].ObjectNode? {
        return false;
      }
      var node := nodes[parent];
      var collection := NextObjectId();
      Record(collection, ArrayNode([Ref(id)]), Change(collection, "$collection", "", Creating, JsUndefined,
                                                      JsArray([])));
      Record(parent, node.(props := SetProperty(node.props, name, Ref(collection))),
             Change(parent, into.alias, name, Attaching, JsUndefined, JsReference(collection)));
      ok := true;
    }

    /** A new object under a fresh id. */
    method Create(row: nat, c: CreateClause, props: seq<Property>, kind: GvqlMutations.Kind, path: string)
      returns (ok: bool)
      requires row < |bindings|
      modifies this
      ensures ok ==> CreateNode(old(State()), row, c, props, kind, path) == Some(State())
      ensures !ok ==> CreateNode(old(State()), row, c, props, kind, path) == None
    {
      var id := NextObjectId();
      Record(id, ObjectNode(c.typeName, props), Change(id, c.alias, path, kind, JsUndefined, JsSummary(id)));
      var b: Binding := bindings[row][c.alias := id];
      bindings := bindings[row := b];
      ok := Attach(b, c.into, id);
    }

    /** One CREATE clause on one row. */
    method CreateOne(row: nat, item: CreateClause) returns (ok: bool)
      modifies this
      ensures ok ==> Some(State()) == CreateStep(frame, old(State()), Job(row, item)) && |bindings| == |old(bindings)|
      ensures !ok ==> CreateStep(frame, old(State()), Job(row, item)) == None
    {
      if row >= |bindings| {
        return false;
      }
      var props := EvaluateFields(At(frame, State()), bindings[row], item.fields);
      if props.None? {
        return false;
      }
      ok := Create(row, item, props.value, Creating, "");
    }

    /** `applyCreate`. */
    method ApplyCreate(items: seq<CreateClause>) returns (ok: bool)
      modifies this
      ensures ok ==> CreateAll(frame, old(State()), items) == Some(State())
      ensures !ok ==> CreateAll(frame, old(State()), items) == None
    {
      ghost var st := State();
      var rows := |bindings|;
      ghost var step := CreateSteps(frame);
      JobsStart(items);
      for i := 0 to rows
        invariant Fold(st, JobsTo(i, 0, items), step) == Some(State())
      {
        for j := 0 to |items|
          invariant Fold(st, JobsTo(i, j, items), step) == Some(State())
        {
          JobsStep(i, j, items);
          FoldNext(st, JobsTo(i, j, items), Job(i, items[j]), step);
          ok := CreateOne(i, items[j]);
          if !ok {
            FailsAll(st, i, j + 1, rows, items, step);
            return;
          }
        }
        JobsRow(i, items);
      }
      assert JobsTo(rows, 0, items) == Jobs(rows, items);
      ok := true;
    }

    /** `findMergeTarget` on a collection already resolved. */
    method FindMergeTarget(items: seq<EncodedValue>, on: Path, expected: JsValue) returns (r: GvqlMutations.Search)
      ensures r == FindCandidate(nodes, items, on, expected)
    {
      for i := 0 to |items|
        invariant FindCandidate(nodes, items, on, expected) == FindCandidate(nodes, items[i..], on, expected)
      {
        assert items[i..][0] == items[i] && items[i..][1..] == items[i + 1..];
        if items[i].Ref? && items[i].id in nodes {
          var same := SameMergeValue(PathToJs(GetNodePath(nodes[items[i].id], on)), expected);
          if same.None? {
            return Failed;
          }
          if same.value {
            return Found(items[i].id);
          }
        }
      }
      r := NotFound;
    }

    /** One MERGE clause on one row. */
    method MergeOne(row: nat, item: MergeClause) returns (ok: bool)
      modifies this
      ensures ok ==> Some(State()) == MergeStep(frame, old(State()), Job(row, item)) && |bindings| == |old(bindings)|
      ensures !ok ==> MergeStep(frame, old(State()), Job(row, item)) == None
    {
      if row >= |bindings| || item.on.None? {
        return false;
      }
      var b, c, on := bindings[row], item.create, item.on.value;
      var props := EvaluateFields(At(frame, State()), b, c.fields);
      if props.None? {
        return false;
      }
      var expected, collection := PathToJs(FindProperty(props.value, on.text)), ResolveCollection(State(), b, c.into);
      if expected.JsUndefined? || collection.None? {
        return false;
      }
      var found := FindMergeTarget(CollectionItems(collection.value), on, expected);
      match found {
        case Failed => ok := false;
        case Found(id) =>
          bindings := bindings[row := b[c.alias := id]];
          ok := true;
        case NotFound => ok := Create(row, c, props.value, Merging, on.text);
      }
    }

    /** `applyMerge`. */
    method ApplyMerge(items: seq<MergeClause>) returns (ok: bool)
      modifies this
      ensures ok ==> MergeAll(frame, old(State()), items) == Some(State())
      ensures !ok ==> MergeAll(frame, old(State()), items) == None
    {
      ghost var st := State();
      var rows := |bindings|;
      ghost var step := MergeSteps(frame);
      JobsStart(items);
      for i := 0 to rows
        invariant Fold(st, JobsTo(i, 0, items), step) == Some(State())
      {
        for j := 0 to |items|
          invariant Fold(st, JobsTo(i, j, items), step) == Some(State())
        {
          JobsStep(i, j, items);
          FoldNext(st, JobsTo(i, j, items), Job(i, items[j]), step);
          ok := MergeOne(i, items[j]);
          if !ok {
            FailsAll(st, i, j + 1, rows, items, step);
            return;
          }
        }
        JobsRow(i, items);
      }
      assert JobsTo(rows, 0, items) == Jobs(rows, items);
      ok := true;
    }

    /** `applyGvqlMutations`. */
    method ApplyMutations(u: Update) returns (ok: bool)
      modifies this
      ensures ok ==> UpdateAll(frame, old(State()), u) == Some(State())
      ensures !ok ==> UpdateAll(frame, old(State()), u) == None
    {
      ok := ApplySet(u.assign);
      if ok {
        ok := ApplyRemove(u.remove);
      }
      if ok {
        ok := ApplyDelete(u.delete);
      }
      if ok {
        ok := ApplyCreate(u.create);
      }
      if ok {
        ok := ApplyMerge(u.merge);
      }
    }
  }
}
