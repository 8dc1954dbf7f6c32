/** What SET, DELETE and CREATE leave in the graph. */
module GvqlMutationEffects {
  // The specification of a statement says how it proceeds; here is what is in the graph afterwards.

  import opened EncodedGraph
  import opened GvqlValues
  import opened GvqlExpressions
  import opened GvqlIndex
  import opened GvqlNodeEdits
  import opened GvqlMutations
  import opened GvqlMutationSafety
  import opened GvqlMergeIdempotence
  import opened Enumerations

  // Jobs: every clause for every row.

  lemma {:induction false} RowJobsMember<I>(row: nat, items: seq<I>, job: Job<I>)
    ensures job in RowJobs(row, items) <==> job.row == row && job.item in items
    decreases |items|
  {
    if items != [] {
      RowJobsMember(row, items[..|items| - 1], job);
      assert items[..|items| - 1] + [items[|items| - 1]] == items;
    }
  }

  lemma {:induction false} RowJobsAt<I>(row: nat, items: seq<I>)
    ensures |RowJobs(row, items)| == |items|
    ensures forall c | 0 <= c < |items| :: RowJobs(row, items)[c] == Job(row, items[c])
    decreases |items|
  {
    if items != [] {
      RowJobsAt(row, items[..|items| - 1]);
    }
  }

  function Rows(n: nat): seq<nat> {
    seq(n, i requires 0 <= i < n => i)
  }

  function JobsOf<I>(items: seq<I>): nat -> seq<Job<I>> {
    (row: nat) => RowJobs(row, items)
  }

  /** Row by row, and in each row, by `RowJobsAt`, clause by clause. */
  lemma {:induction false} JobsInTurn<I>(rows: nat, items: seq<I>)
    ensures Jobs(rows, items) == Flat(Rows(rows), JobsOf(items))
    decreases rows
  {
    if rows > 0 {
      JobsInTurn(rows - 1, items);
      assert Rows(rows)[..rows - 1] == Rows(rows - 1);
    }
  }

  lemma LastRow<I>(rows: nat, items: seq<I>)
    requires rows > 0
    ensures Jobs(rows, items) == Jobs(rows - 1, items) + RowJobs(rows - 1, items)
  {
  }

  lemma NextRow<I>(before: seq<Job<I>>, row: seq<Job<I>>, rows: nat, items: seq<I>, job: Job<I>)
    requires rows > 0
    requires job in before <==> job.row < rows - 1 && job.item in items
    requires job in row <==> job.row == rows - 1 && job.item in items
    ensures job in before + row <==> job.row < rows && job.item in items
  {
  }

  lemma {:induction false} JobsMember<I>(rows: nat, items: seq<I>, job: Job<I>)
    ensures job in Jobs(rows, items) <==> job.row < rows && job.item in items
  {
    if rows > 0 {
      JobsMember(rows - 1, items, job);
      RowJobsMember(rows - 1, items, job);
      NextRow(Jobs(rows - 1, items), RowJobs(rows - 1, items), rows, items, job);
      LastRow(rows, items);
    }
  }

  // DELETE.

  /** Some row denotes the node by a deleted alias. */
  ghost predicate IsDeleted(st: Edit, delete: seq<string>, id: ObjectId) {
    exists row, alias | 0 <= row < |st.bindings| && alias in delete :: Names(st, row, alias, id)
  }

  predicate Names(st: Edit, row: nat, alias: string, id: ObjectId)
    requires row < |st.bindings|
  {
    id in st.nodes && alias in st.bindings[row] && st.bindings[row][alias] == id
  }

  lemma DeletedAreDoomed(st: Edit, delete: seq<string>, id: ObjectId)
    ensures id in DoomedIds(DoomedBy(st, Jobs(|st.bindings|, delete))) <==> IsDeleted(st, delete, id)
  {
    var jobs := Jobs(|st.bindings|, delete);
    DoomedExact(st, jobs, id);
    if job :| job in jobs && Denoted(st, job.row, job.item) == Some(id) {
      JobsMember(|st.bindings|, delete, job);
      assert Names(st, job.row, job.item, id);
    }
    if row, alias :| 0 <= row < |st.bindings| && alias in delete && Names(st, row, alias, id) {
      JobsMember(|st.bindings|, delete, Job(row, alias));
      assert Denoted(st, row, alias) == Some(id);
    }
  }

  function NotTo(gone: set<ObjectId>): EncodedValue -> bool {
    (v: EncodedValue) => v.Ref? ==> v.id !in gone
  }

  function EntryNotTo(gone: set<ObjectId>): Entry -> bool {
    (x: Entry) => (x.key.Ref? ==> x.key.id !in gone) && (x.value.Ref? ==> x.value.id !in gone)
  }

  function PropertyNotTo(gone: set<ObjectId>): Property -> bool {
    (p: Property) => p.value.Ref? ==> p.value.id !in gone
  }

  /**
   * The old node without the items, properties and whole map entries that refer to a deleted node, in the old order.
   */
  ghost predicate Survives(node: EncodedNode, node': EncodedNode, gone: set<ObjectId>) {
    match node
    case ArrayNode(items) => node'.ArrayNode? && Selects(items, NotTo(gone), Itself(), node'.items)
    case SetNode(items) => node'.SetNode? && Selects(items, NotTo(gone), Itself(), node'.items)
    case MapNode(entries) => node'.MapNode? && Selects(entries, EntryNotTo(gone), Itself(), node'.entries)
    case ObjectNode(t, props) =>
      node'.ObjectNode? && node'.typeName == t && Selects(props, PropertyNotTo(gone), Itself(), node'.props)
    case LazyNode(_) => node' == node
  }

  lemma {:induction false} KeptItemsOnce(items: seq<EncodedValue>, gone: set<ObjectId>)
    ensures Selects(items, NotTo(gone), Itself(), KeepItems(items, gone))
    decreases |items|
  {
    if items == [] {
      SelectsNone(NotTo(gone), Itself<EncodedValue>());
    } else {
      KeptItemsOnce(items[1..], gone);
      SelectsBefore(items[1..], NotTo(gone), Itself(), KeepItems(items[1..], gone), items[0]);
      SameSelects([items[0]] + items[1..], NotTo(gone), Itself(),
                  (if NotTo(gone)(items[0]) then [items[0]] else []) + KeepItems(items[1..], gone), items,
                  KeepItems(items, gone));
    }
  }

  lemma {:induction false} KeptEntriesOnce(entries: seq<Entry>, gone: set<ObjectId>)
    ensures Selects(entries, EntryNotTo(gone), Itself(), KeepEntries(entries, gone))
    decreases |entries|
  {
    if entries == [] {
      SelectsNone(EntryNotTo(gone), Itself<Entry>());
    } else {
      KeptEntriesOnce(entries[1..], gone);
      SelectsBefore(entries[1..], EntryNotTo(gone), Itself(), KeepEntries(entries[1..], gone), entries[0]);
      SameSelects([entries[0]] + entries[1..], EntryNotTo(gone), Itself(),
                  (if EntryNotTo(gone)(entries[0]) then [entries[0]] else []) + KeepEntries(entries[1..], gone),
                      entries,
                  KeepEntries(entries, gone));
    }
  }

  lemma {:induction false} KeptPropertiesOnce(props: seq<Property>, gone: set<ObjectId>)
    ensures Selects(props, PropertyNotTo(gone), Itself(), KeepProperties(props, gone))
    decreases |props|
  {
    if props == [] {
      SelectsNone(PropertyNotTo(gone), Itself<Property>());
    } else {
      KeptPropertiesOnce(props[1..], gone);
      SelectsBefore(props[1..], PropertyNotTo(gone), Itself(), KeepProperties(props[1..], gone), props[0]);
      SameSelects([props[0]] + props[1..], PropertyNotTo(gone), Itself(),
                  (if PropertyNotTo(gone)(props[0]) then [props[0]] else []) + KeepProperties(props[1..], gone), props,
                  KeepProperties(props, gone));
    }
  }

  lemma DetachedSurvives(node: EncodedNode, gone: set<ObjectId>)
    ensures Survives(node, Detach(node, gone), gone)
  {
    match node
    case ArrayNode(items) => KeptItemsOnce(items, gone);
    case SetNode(items) => KeptItemsOnce(items, gone);
    case MapNode(entries) => KeptEntriesOnce(entries, gone);
    case ObjectNode(_, props) => KeptPropertiesOnce(props, gone);
    case LazyNode(_) =>
  }

  /** A node without references to deleted nodes survives as it is. */
  lemma UntouchedSurvives(node: EncodedNode, gone: set<ObjectId>)
    requires forall id | RefersTo(node, id) :: id !in gone
    ensures Survives(node, node, gone)
  {
    match node
    case ArrayNode(items) =>
      assert forall v | v in items :: v.Ref? ==> RefersTo(node, v.id);
      SelectsAll(items, NotTo(gone));
    case SetNode(items) =>
      assert forall v | v in items :: v.Ref? ==> RefersTo(node, v.id);
      SelectsAll(items, NotTo(gone));
    case MapNode(entries) =>
      forall x | x in entries ensures EntryNotTo(gone)(x) {
        EntrySlotsMember(entries, x.key);
        EntrySlotsMember(entries, x.value);
      }
      SelectsAll(entries, EntryNotTo(gone));
    case ObjectNode(_, props) =>
      forall p | p in props ensures PropertyNotTo(gone)(p) {
        PropertySlotsMember(props, p.value);
      }
      SelectsAll(props, PropertyNotTo(gone));
    case LazyNode(_) =>
  }

  /**
   * After DELETE exactly the nodes some row denotes by a deleted alias are gone, and each of the others is the old node
   * without what refers to them.
   */
  lemma DeleteExact(f: Frame, base: map<ObjectId, EncodedNode>, st: Edit, delete: seq<string>)
    requires Healthy(f.root, base) && IncomingCovers(f.incoming, base) && Shrunk(base, st.nodes)
    requires DeleteAll(f, st, delete).Some?
    ensures var st', gone := DeleteAll(f, st, delete).value, (set id | id in st.nodes && IsDeleted(st, delete, id));
            && st'.bindings == st.bindings && st.changes <= st'.changes
            && (forall id :: id in st'.nodes <==> id in st.nodes && id !in gone)
            && (forall id | id in st'.nodes :: Survives(st.nodes[id], st'.nodes[id], gone))
  {
    var st', gone := DeleteAll(f, st, delete).value, (set id | id in st.nodes && IsDeleted(st, delete, id));
    if delete == [] {
      forall id | id in st.nodes ensures Survives(st.nodes[id], st.nodes[id], gone) {
        UntouchedSurvives(st.nodes[id], gone);
      }
    } else {
      DeletedExact(f, base, st, delete, gone);
    }
  }

  lemma DeletedExact(f: Frame, base: map<ObjectId, EncodedNode>, st: Edit, delete: seq<string>, gone: set<ObjectId>)
    requires Healthy(f.root, base) && IncomingCovers(f.incoming, base) && Shrunk(base, st.nodes)
    requires DeleteAll(f, st, delete).Some? && delete != []
    requires gone == set id | id in st.nodes && IsDeleted(st, delete, id)
    ensures var st' := DeleteAll(f, st, delete).value;
            && st'.nodes.Keys == st.nodes.Keys - gone
            && (forall id | id in st'.nodes :: Survives(st.nodes[id], st'.nodes[id], gone))
  {
    var st' := DeleteAll(f, st, delete).value;
    var doomed := DoomedBy(st, Jobs(|st.bindings|, delete));
    assert DoomedIds(doomed) == gone by {
      forall id ensures id in DoomedIds(doomed) <==> id in gone {
        DeletedAreDoomed(st, delete, id);
      }
    }
    var parents := ChangedIds(AllDetachChanges(f, st.nodes, doomed, gone));
    assert st'.nodes == Detached(st.nodes, parents, gone);
    forall id | id in st'.nodes ensures Survives(st.nodes[id], st'.nodes[id], gone) {
      if id in parents {
        DetachedSurvives(st.nodes[id], gone);
      } else {
        forall to | RefersTo(st.nodes[id], to) ensures to !in gone {
          if to in gone {
            assert CoveredAt(f.incoming, id, to);
            var e :| e in Bucket(f.incoming, to) && e.from == id;
            AllDetachCovers(f, st.nodes, doomed, gone, to, e);
          }
        }
        UntouchedSurvives(st.nodes[id], gone);
      }
    }
  }

  /** It fails exactly on the root. */
  lemma DeleteFailsOnRoot(f: Frame, st: Edit, delete: seq<string>)
    ensures DeleteAll(f, st, delete).None? <==> delete != [] && f.root.Ref? && IsDeleted(st, delete, f.root.id)
  {
    if delete != [] && f.root.Ref? {
      DeletedAreDoomed(st, delete, f.root.id);
    }
  }

  // SET and REMOVE.

  /** What may be stored: everything but references, lists and whole nodes. It reads back as it was. */
  lemma StoredReadsBack(v: JsValue)
    ensures JsToEncoded(v).Some? <==> !v.JsReference? && !v.JsArray? && !v.JsSummary?
    ensures JsToEncoded(v).Some? ==> EncodedToJs(JsToEncoded(v).value) == v
  {
  }

  /** The node has a position for the path, or is an object or a list that can be given one. */
  predicate Settable(node: EncodedNode, path: Path) {
    match node
    case ObjectNode(_, _) => true
    case ArrayNode(_) => path.shape.Item?
    case SetNode(_) => path.shape.Item?
    case MapNode(entries) => (path.shape.EntryKey? || path.shape.EntryValue?) && path.shape.index < |entries|
    case LazyNode(_) => false
  }

  /** SET of one row: the evaluated value reads back at the path, and nothing else is different. */
  lemma SetStepExact(f: Frame, st: Edit, job: Job<SetClause>, id: ObjectId)
    requires Denoted(st, job.row, job.item.target.alias) == Some(id)
    ensures var v, path := Evaluate(At(f, st), st.bindings[job.row], job.item.value), job.item.target.path;
            && (SetStep(f, st, job).Some? <==>
                 && v.Some? && !v.value.JsReference? && !v.value.JsArray? && !v.value.JsSummary?
                 && path.Some? && Settable(st.nodes[id], path.value))
            && (SetStep(f, st, job).Some? ==>
                 var st' := SetStep(f, st, job).value;
                 && st'.bindings == st.bindings && st'.nodes == st.nodes[id := st'.nodes[id]]
                 && PathToJs(GetNodePath(st'.nodes[id], path.value)) == v.value
                 && GetNodePath(st'.nodes[id], path.value).Some?
                 && KindOf(st'.nodes[id]) == KindOf(st.nodes[id]) && TypeOf(st'.nodes[id]) == TypeOf(st.nodes[id])
                 && (forall q | Separate(st.nodes[id], path.value, q) ::
                       GetNodePath(st'.nodes[id], q) == GetNodePath(st.nodes[id], q))
                 && st'.changes == st.changes +
                      [Change(id, job.item.target.alias, path.value.text, Setting,
                              PathToJs(GetNodePath(st.nodes[id], path.value)), v.value)])
  {
    var v, path := Evaluate(At(f, st), st.bindings[job.row], job.item.value), job.item.target.path;
    if v.Some? {
      StoredReadsBack(v.value);
    }
    if SetStep(f, st, job).Some? {
      var next := JsToEncoded(v.value).value;
      forall q ensures Separate(st.nodes[id], path.value, q) ==>
                         GetNodePath(SetStep(f, st, job).value.nodes[id], q) == GetNodePath(st.nodes[id], q) {
        SetThenRead(st.nodes[id], path.value, next, q);
      }
      SetThenRead(st.nodes[id], path.value, next, path.value);
    }
  }

  /** A row that does not denote a node is passed over. */
  lemma SetPassesOver(f: Frame, st: Edit, job: Job<SetClause>)
    requires Denoted(st, job.row, job.item.target.alias).None?
    ensures SetStep(f, st, job) == Some(st)
  {
  }

  /** Writing to one of the paths does not touch the other. */
  predicate Apart(node: EncodedNode, p: Path, q: Path) {
    if node.ObjectNode? then p.text != q.text else p.shape != q.shape
  }

  /** No SET of the list after the first `k + 1` writes to this path of this node. */
  ghost predicate LastWrite(f: Frame, st: Edit, jobs: seq<Job<SetClause>>, k: nat, id: ObjectId, path: Path)
    requires id in st.nodes
  {
    forall j | k < j < |jobs| && Denoted(st, jobs[j].row, jobs[j].item.target.alias) == Some(id) ::
      jobs[j].item.target.path.Some? ==> Apart(st.nodes[id], jobs[j].item.target.path.value, path)
  }

  /** SET keeps rows, nodes and their kinds. */
  lemma {:induction false} SetsKeepNodes(f: Frame, st: Edit, jobs: seq<Job<SetClause>>)
    requires Fold(st, jobs, SetSteps(f)).Some?
    ensures var st' := Fold(st, jobs, SetSteps(f)).value;
            && st'.bindings == st.bindings && st'.nodes.Keys == st.nodes.Keys
            && forall id | id in st.nodes :: KindOf(st'.nodes[id]) == KindOf(st.nodes[id])
    decreases |jobs|
  {
    if jobs != [] {
      var front, job := jobs[..|jobs| - 1], jobs[|jobs| - 1];
      SetsKeepNodes(f, st, front);
      var before := Fold(st, front, SetSteps(f)).value;
      var id := Denoted(before, job.row, job.item.target.alias);
      if id.Some? {
        SetStepExact(f, before, job, id.value);
      }
    }
  }

  lemma StaysRead(f: Frame, st: Edit, job: Job<SetClause>, id: ObjectId, path: Path)
    requires SetStep(f, st, job).Some? && id in st.nodes && GetNodePath(st.nodes[id], path).Some?
    requires Denoted(st, job.row, job.item.target.alias) == Some(id) && job.item.target.path.Some? ==>
               Apart(st.nodes[id], job.item.target.path.value, path)
    ensures var st' := SetStep(f, st, job).value;
            id in st'.nodes && GetNodePath(st'.nodes[id], path) == GetNodePath(st.nodes[id], path)
  {
    var at := Denoted(st, job.row, job.item.target.alias);
    if at.Some? {
      SetStepExact(f, st, job, at.value);
      if at.value == id {
        assert Separate(st.nodes[id], job.item.target.path.value, path);
      }
    }
  }

  /**
   * After all SETs the last value written to a path of a node is what the node holds there, evaluated as the graph was
   * when its turn came.
   */
  lemma {:induction false} SetLasts(f: Frame, st: Edit, jobs: seq<Job<SetClause>>, k: nat, id: ObjectId)
    requires Fold(st, jobs, SetSteps(f)).Some? && k < |jobs|
    requires Denoted(st, jobs[k].row, jobs[k].item.target.alias) == Some(id) && jobs[k].item.target.path.Some?
    requires LastWrite(f, st, jobs, k, id, jobs[k].item.target.path.value)
    ensures Fold(st, jobs[..k], SetSteps(f)).Some?
    ensures var before, st' := Fold(st, jobs[..k], SetSteps(f)).value, Fold(st, jobs, SetSteps(f)).value;
            var v := Evaluate(At(f, before), st.bindings[jobs[k].row], jobs[k].item.value);
            && v.Some? && id in st'.nodes && GetNodePath(st'.nodes[id], jobs[k].item.target.path.value).Some?
            && PathToJs(GetNodePath(st'.nodes[id], jobs[k].item.target.path.value)) == v.value
    decreases |jobs|
  {
    var front, job, path := jobs[..|jobs| - 1], jobs[|jobs| - 1], jobs[k].item.target.path.value;
    var before := Fold(st, front, SetSteps(f)).value;
    SetsKeepNodes(f, st, front);
    if k == |jobs| - 1 {
      assert jobs[..k] == front;
      SetStepExact(f, before, job, id);
    } else {
      assert front[..k] == jobs[..k] && front[k] == jobs[k];
      assert forall j | 0 <= j < |front| :: front[j] == jobs[j];
      SetLasts(f, st, front, k, id);
      StaysRead(f, before, job, id, path);
    }
  }

  /** REMOVE of one row: an object loses the property and nothing else; a missing property is no change. */
  lemma RemoveStepExact(st: Edit, job: Job<Target>, id: ObjectId)
    requires Denoted(st, job.row, job.item.alias) == Some(id)
    ensures RemoveStep(st, job).Some? <==> st.nodes[id].ObjectNode? && job.item.path.Some?
    ensures RemoveStep(st, job).Some? ==>
              var st', node, name := RemoveStep(st, job).value, st.nodes[id], job.item.path.value.text;
              && st'.bindings == st.bindings && st'.nodes == st.nodes[id := st'.nodes[id]]
              && st'.nodes[id].ObjectNode? && st'.nodes[id].typeName == node.typeName
              && FindProperty(st'.nodes[id].props, name).None?
              && (forall q | q != name :: FindProperty(st'.nodes[id].props, q) == FindProperty(node.props, q))
              && st'.changes == st.changes + if FindProperty(node.props, name).None? then []
                 else [Change(id, job.item.alias, name, Removing, PathToJs(FindProperty(node.props, name)),
                              JsUndefined)]
  {
    if RemoveStep(st, job).Some? {
      var st', node, name := RemoveStep(st, job).value, st.nodes[id], job.item.path.value.text;
      forall q ensures FindProperty(st'.nodes[id].props, q) == if q == name then None else FindProperty(node.props, q) {
        RemovePropertyReads(node.props, name, q);
      }
      assert FindProperty(node.props, name).None? ==> st.nodes == st.nodes[id := st'.nodes[id]];
    }
  }

  // CREATE, and the nodes MERGE makes.

  /** The fields become properties of their names and values, one for one, unless one of them cannot be stored. */
  lemma {:induction false} FieldsExact(cx: Context, b: Binding, fields: seq<Field>)
    ensures EvaluateFields(cx, b, fields).Some? <==>
            forall i | 0 <= i < |fields| :: Storable(Evaluate(cx, b, fields[i].value))
    ensures EvaluateFields(cx, b, fields).Some? ==>
              var props := EvaluateFields(cx, b, fields).value;
              |props| == |fields| &&
              forall i | 0 <= i < |fields| :: Holding(cx, b, fields[i], props[i])
    decreases |fields|
  {
    if fields != [] {
      var front, last := fields[..|fields| - 1], fields[|fields| - 1];
      FieldsExact(cx, b, front);
      if Evaluate(cx, b, last.value).Some? {
        StoredReadsBack(Evaluate(cx, b, last.value).value);
      }
      assert forall i | 0 <= i < |front| :: front[i] == fields[i];
    }
  }

  predicate Storable(v: Option<JsValue>) {
    v.Some? && !v.value.JsReference? && !v.value.JsArray? && !v.value.JsSummary?
  }

  predicate Holding(cx: Context, b: Binding, field: Field, p: Property) {
    p.name == field.name && Evaluate(cx, b, field.value) == Some(EncodedToJs(p.value))
  }

  /**
   * The node that gets the reference: the target itself, the collection its property refers to, or, to start one, it.
   */
  function Receiver(st: Edit, b: Binding, into: Target): Option<ObjectId> {
    if into.alias !in b || b[into.alias] !in st.nodes then None
    else if into.path.None? then Some(b[into.alias])
    else
      match GetNodePath(st.nodes[b[into.alias]], into.path.value)
      case Some(Ref(collection)) => Some(collection)
      case Some(_) => None
      case None => Some(b[into.alias])
  }

  /** A node made by CREATE or MERGE: new, of the clause's type, with its fields, bound in its row. */
  lemma MadeExact(st: Edit, row: nat, c: CreateClause, props: seq<Property>, kind: GvqlMutations.Kind, path: string)
    requires row < |st.bindings| && c.alias != c.into.alias && CreateNode(st, row, c, props, kind, path).Some?
    requires c.into.alias in st.bindings[row] && st.bindings[row][c.into.alias] in st.nodes
    ensures var id, st', to := NextId(st.nodes), CreateNode(st, row, c, props, kind, path).value,
                               Receiver(st, st.bindings[row], c.into);
            && id !in st.nodes && id in st'.nodes && st'.nodes[id] == ObjectNode(c.typeName, props)
            && st'.bindings == Rebound(st.bindings, row, c.alias, id)
            && to.Some? && to.value in st.nodes
            && (forall k | k in st.nodes && k != to.value :: k in st'.nodes && st'.nodes[k] == st.nodes[k])
  {
    var id, made := NextId(st.nodes), Made(st, row, c, props, kind, path);
    var b := made.bindings[row];
    assert b[c.into.alias] == st.bindings[row][c.into.alias];
    if c.into.path.Some? && GetNodePath(made.nodes[b[c.into.alias]], c.into.path.value).None? {
      assert NextId(made.nodes) !in made.nodes;
    }
  }

  /** It is the last item of the collection its target names from then on, after the items that were there. */
  lemma MadeStandsLast(st: Edit, row: nat, c: CreateClause, props: seq<Property>, kind: GvqlMutations.Kind,
                       path: string)
    requires row < |st.bindings| && c.alias != c.into.alias && CreateNode(st, row, c, props, kind, path).Some?
    requires ResolveCollection(st, st.bindings[row], c.into).Some?
    ensures var st', b := CreateNode(st, row, c, props, kind, path).value, st.bindings[row];
            var before, after := ResolveCollection(st, b, c.into), ResolveCollection(st', b, c.into);
            && after.Some? && (after.value.ArrayNode? || after.value.SetNode?)
            && CollectionItems(after.value) == CollectionItems(before.value) + [Ref(NextId(st.nodes))]
  {
    var made := Made(st, row, c, props, kind, path);
    var b, b2 := st.bindings[row], made.bindings[row];
    assert ResolveCollection(made, b2, c.into) == ResolveCollection(st, b, c.into);
    AttachedLast(made, b2, c.into, NextId(st.nodes));
    AttachedIsList(made, b2, c.into, NextId(st.nodes));
    var st' := CreateNode(st, row, c, props, kind, path).value;
    assert ResolveCollection(st', b, c.into) == ResolveCollection(st', b2, c.into);
  }

  lemma AttachedIsList(st: Edit, b: Binding, into: Target, id: ObjectId)
    requires AttachCreated(st, b, into, id).Some? && ResolveCollection(st, b, into).Some?
    ensures var after := ResolveCollection(AttachCreated(st, b, into, id).value, b, into);
            after.Some? ==> after.value.ArrayNode? || after.value.SetNode?
  {
    var parent := b[into.alias];
    if into.path.Some? {
      var existing := GetNodePath(st.nodes[parent], into.path.value);
      if existing.None? {
        StartedLast(st, b, into, id);
      } else {
        AppendedParentReads(st.nodes[parent], id, into.path.value);
      }
    }
  }

  ghost predicate HoldingAll(cx: Context, b: Binding, fields: seq<Field>, props: seq<Property>) {
    |props| == |fields| && forall i | 0 <= i < |fields| :: Holding(cx, b, fields[i], props[i])
  }

  /**
   * CREATE of one row: a new node of the clause's type with, field by field, the evaluated values, and nothing else
   * unless it is its own target.
   */
  lemma CreateStepExact(f: Frame, st: Edit, job: Job<CreateClause>)
    requires CreateStep(f, st, job).Some?
    ensures var st', id := CreateStep(f, st, job).value, NextId(st.nodes);
            && id !in st.nodes && id in st'.nodes && st'.bindings == Rebound(st.bindings, job.row, job.item.alias, id)
            && exists props ::
                 && HoldingAll(At(f, st), st.bindings[job.row], job.item.fields, props)
                 && NodeGrown(ObjectNode(job.item.typeName, props), st'.nodes[id])
                 && (job.item.alias != job.item.into.alias && Denoted(st, job.row, job.item.into.alias).Some? ==>
                       st'.nodes[id] == ObjectNode(job.item.typeName, props))
  {
    var props := EvaluateFields(At(f, st), st.bindings[job.row], job.item.fields).value;
    FieldsExact(At(f, st), st.bindings[job.row], job.item.fields);
    CreateGrows(st, job.row, job.item, props, Creating, "");
    if job.item.alias != job.item.into.alias && Denoted(st, job.row, job.item.into.alias).Some? {
      MadeExact(st, job.row, job.item, props, Creating, "");
    }
    assert HoldingAll(At(f, st), st.bindings[job.row], job.item.fields, props);
    var made := Made(st, job.row, job.item, props, Creating, "");
    assert NodeGrown(made.nodes[NextId(st.nodes)], CreateStep(f, st, job).value.nodes[NextId(st.nodes)]);
  }

  lemma CreateStepGrows(f: Frame, st: Edit, job: Job<CreateClause>)
    requires CreateStep(f, st, job).Some?
    ensures Grown(st.nodes, CreateStep(f, st, job).value.nodes)
  {
    var props := EvaluateFields(At(f, st), st.bindings[job.row], job.item.fields).value;
    CreateGrows(st, job.row, job.item, props, Creating, "");
  }

  lemma {:induction false} CreatesGrow(f: Frame, st: Edit, jobs: seq<Job<CreateClause>>, k: nat)
    requires Fold(st, jobs, CreateSteps(f)).Some? && k <= |jobs|
    ensures Fold(st, jobs[..k], CreateSteps(f)).Some?
    ensures Grown(Fold(st, jobs[..k], CreateSteps(f)).value.nodes, Fold(st, jobs, CreateSteps(f)).value.nodes)
    decreases |jobs|
  {
    if k == |jobs| {
      assert jobs[..k] == jobs;
      GrownSelf(Fold(st, jobs, CreateSteps(f)).value.nodes);
    } else {
      var front, job := jobs[..|jobs| - 1], jobs[|jobs| - 1];
      assert front[..k] == jobs[..k];
      CreatesGrow(f, st, front, k);
      var before := Fold(st, front, CreateSteps(f)).value;
      CreateStepGrows(f, before, job);
      GrownTrans(Fold(st, jobs[..k], CreateSteps(f)).value.nodes, before.nodes, CreateStep(f, before, job).value.nodes);
    }
  }

  /**
   * After all CREATEs every one of them has its node in the graph: of the clause's type, its fields holding what they
   * evaluated to when its turn came, and properties besides only where a collection was started.
   */
  lemma CreatedLasts(f: Frame, st: Edit, jobs: seq<Job<CreateClause>>, k: nat)
    requires Fold(st, jobs, CreateSteps(f)).Some? && k < |jobs|
    ensures Fold(st, jobs[..k], CreateSteps(f)).Some?
    ensures var before, st' := Fold(st, jobs[..k], CreateSteps(f)).value, Fold(st, jobs, CreateSteps(f)).value;
            var id := NextId(before.nodes);
            && jobs[k].row < |before.bindings| && id !in before.nodes && id in st'.nodes
            && exists props ::
                 && HoldingAll(At(f, before), before.bindings[jobs[k].row], jobs[k].item.fields, props)
                 && NodeGrown(ObjectNode(jobs[k].item.typeName, props), st'.nodes[id])
  {
    CreatesGrow(f, st, jobs, k);
    CreatesGrow(f, st, jobs, k + 1);
    assert jobs[..k + 1][..k] == jobs[..k];
    var before, after := Fold(st, jobs[..k], CreateSteps(f)).value, Fold(st, jobs[..k + 1], CreateSteps(f)).value;
    var id, st' := NextId(before.nodes), Fold(st, jobs, CreateSteps(f)).value;
    CreateStepExact(f, before, jobs[k]);
    var props :| HoldingAll(At(f, before), before.bindings[jobs[k].row], jobs[k].item.fields, props) &&
                 NodeGrown(ObjectNode(jobs[k].item.typeName, props), after.nodes[id]);
    NodeGrownTrans(ObjectNode(jobs[k].item.typeName, props), after.nodes[id], st'.nodes[id]);
  }

  /** The node a MERGE makes, where it finds none, is of the clause's type with its fields. */
  lemma MergeMakes(f: Frame, st: Edit, job: Job<MergeClause>)
    requires MergeStep(f, st, job).Some? && JobCandidate(f, st, job).NotFound?
    ensures var st', id, c := MergeStep(f, st, job).value, NextId(st.nodes), job.item.create;
            && id !in st.nodes && id in st'.nodes
            && exists props ::
                 && HoldingAll(At(f, st), st.bindings[job.row], c.fields, props)
                 && NodeGrown(ObjectNode(c.typeName, props), st'.nodes[id])
  {
    var props, c := JobProps(f, st, job).value, job.item.create;
    FieldsExact(At(f, st), st.bindings[job.row], c.fields);
    assert HoldingAll(At(f, st), st.bindings[job.row], c.fields, props);
    CreateGrows(st, job.row, c, props, Merging, job.item.on.value.text);
    var made := Made(st, job.row, c, props, Merging, job.item.on.value.text);
    assert NodeGrown(made.nodes[NextId(st.nodes)], MergeStep(f, st, job).value.nodes[NextId(st.nodes)]);
  }
}
