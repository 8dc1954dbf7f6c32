/** Updates keep the graph closed under references and report every node they add, remove or change. */
module GvqlMutationSafety {
  import opened EncodedGraph
  import opened GvqlValues
  import opened GvqlExpressions
  import opened GvqlIndex
  import opened GvqlMatcher
  import opened GvqlNodeEdits
  import opened GvqlMutations
  import opened Folding

  /** Every reference lands, the root's included. */
  ghost predicate Healthy(root: EncodedValue, nodes: map<ObjectId, EncodedNode>) {
    ClosedNodes(nodes) && (root.Ref? ==> root.id in nodes)
  }

  /** Every node that was added, removed or altered is reported. */
  ghost predicate Covered(base: map<ObjectId, EncodedNode>, st: Edit) {
    forall id | id in base || id in st.nodes ::
      id in ChangedIds(st.changes) || (id in base && id in st.nodes && st.nodes[id] == base[id])
  }

  /** The same nodes, with no reference added. */
  ghost predicate Shrunk(base: map<ObjectId, EncodedNode>, nodes: map<ObjectId, EncodedNode>) {
    && nodes.Keys == base.Keys
    && forall id, x | id in nodes && RefersTo(nodes[id], x) :: RefersTo(base[id], x)
  }

  /** The incoming edges name the source of every reference. */
  ghost predicate IncomingCovers(incoming: map<ObjectId, seq<Edge>>, nodes: map<ObjectId, EncodedNode>) {
    forall from, to | from in nodes && RefersTo(nodes[from], to) :: CoveredAt(incoming, from, to)
  }

  lemma {:induction false} FoldKeeps<I>(st: Edit, jobs: seq<Job<I>>, step: (Edit, Job<I>) -> Option<Edit>,
                                        inv: Edit -> bool)
    requires inv(st) && forall s, job | inv(s) && step(s, job).Some? :: inv(step(s, job).value)
    ensures Fold(st, jobs, step).Some? ==> inv(Fold(st, jobs, step).value)
    decreases |jobs|
  {
    if jobs != [] {
      FoldKeeps(st, jobs[..|jobs| - 1], step, inv);
    }
  }

  lemma EditedCovered(base: map<ObjectId, EncodedNode>, st: Edit, id: ObjectId, node: EncodedNode, change: Change)
    requires Covered(base, st) && change.id == id
    ensures Covered(base, Edited(st, id, node, change))
  {
    var st' := Edited(st, id, node, change);
    assert change in st'.changes;
    forall x | x in base || x in st'.nodes
      ensures x in ChangedIds(st'.changes) || (x in base && x in st'.nodes && st'.nodes[x] == base[x])
    {
      if x != id && x in ChangedIds(st.changes) {
        var c :| c in st.changes && c.id == x;
        assert c in st'.changes;
      }
    }
  }

  // SET and REMOVE.

  ghost function OnlyShrinks(base: map<ObjectId, EncodedNode>): Edit -> bool {
    (st: Edit) => Shrunk(base, st.nodes) && Covered(base, st)
  }

  lemma SetStepShrinks(f: Frame, base: map<ObjectId, EncodedNode>, st: Edit, job: Job<SetClause>)
    requires Shrunk(base, st.nodes) && Covered(base, st) && SetStep(f, st, job).Some?
    ensures var st' := SetStep(f, st, job).value; Shrunk(base, st'.nodes) && Covered(base, st')
  {
    var id := Denoted(st, job.row, job.item.target.alias);
    if id.Some? {
      var next := JsToEncoded(Evaluate(At(f, st), st.bindings[job.row], job.item.value).value).value;
      var node, path := st.nodes[id.value], job.item.target.path.value;
      var written := SetNodePath(node, path, next).value;
      forall x | RefersTo(written, x) ensures RefersTo(base[id.value], x) {
        SetAddsNoReference(node, path, next, x);
      }
      EditedCovered(base, st, id.value, written,
                    Change(id.value, job.item.target.alias, path.text, Setting, PathToJs(GetNodePath(node, path)),
                           EncodedToJs(next)));
    }
  }

  lemma RemoveStepShrinks(base: map<ObjectId, EncodedNode>, st: Edit, job: Job<Target>)
    requires Shrunk(base, st.nodes) && Covered(base, st) && RemoveStep(st, job).Some?
    ensures var st' := RemoveStep(st, job).value; Shrunk(base, st'.nodes) && Covered(base, st')
  {
    var st' := RemoveStep(st, job).value;
    if st' != st {
      var id, name := Denoted(st, job.row, job.item.alias).value, job.item.path.value.text;
      var node := st.nodes[id];
      var smaller := node.(props := RemoveProperty(node.props, name));
      forall x | RefersTo(smaller, x) ensures RefersTo(base[id], x) {
        RemovePropertySlots(node.props, name, Ref(x));
      }
      EditedCovered(base, st, id, smaller,
                    Change(id, job.item.alias, name, Removing, PathToJs(FindProperty(node.props, name)), JsUndefined));
    }
  }

  lemma SetAllShrinks(f: Frame, base: map<ObjectId, EncodedNode>, st: Edit, items: seq<SetClause>)
    requires Shrunk(base, st.nodes) && Covered(base, st) && SetAll(f, st, items).Some?
    ensures var st' := SetAll(f, st, items).value; Shrunk(base, st'.nodes) && Covered(base, st')
  {
    forall s, job | OnlyShrinks(base)(s) && SetSteps(f)(s, job).Some?
      ensures OnlyShrinks(base)(SetSteps(f)(s, job).value) {
      SetStepShrinks(f, base, s, job);
    }
    FoldKeeps(st, Jobs(|st.bindings|, items), SetSteps(f), OnlyShrinks(base));
  }

  lemma RemoveAllShrinks(base: map<ObjectId, EncodedNode>, st: Edit, items: seq<Target>)
    requires Shrunk(base, st.nodes) && Covered(base, st) && RemoveAll(st, items).Some?
    ensures var st' := RemoveAll(st, items).value; Shrunk(base, st'.nodes) && Covered(base, st')
  {
    forall s, job | OnlyShrinks(base)(s) && RemoveSteps()(s, job).Some?
      ensures OnlyShrinks(base)(RemoveSteps()(s, job).value) {
      RemoveStepShrinks(base, s, job);
    }
    FoldKeeps(st, Jobs(|st.bindings|, items), RemoveSteps(), OnlyShrinks(base));
  }

  // DELETE.

  lemma {:induction false} DetachCovers(nodes: map<ObjectId, EncodedNode>, target: ObjectId, edges: seq<Edge>,
                                        doomed: set<ObjectId>, e: Edge)
    requires e in edges && e.from !in doomed && e.from in nodes
    ensures e.from in ChangedIds(DetachChanges(nodes, target, edges, doomed))
    decreases |edges|
  {
    var last := edges[|edges| - 1];
    var all := DetachChanges(nodes, target, edges, doomed);
    if e == last {
      assert all[|all| - 1].id == e.from && all[|all| - 1] in all;
    } else {
      assert edges == edges[..|edges| - 1] + [last];
      DetachCovers(nodes, target, edges[..|edges| - 1], doomed, e);
      var c :| c in DetachChanges(nodes, target, edges[..|edges| - 1], doomed) && c.id == e.from;
      assert c in all;
    }
  }

  lemma {:induction false} AllDetachCovers(f: Frame, nodes: map<ObjectId, EncodedNode>, doomed: seq<Doomed>,
                                           ids: set<ObjectId>,
                                           target: ObjectId, e: Edge)
    requires target in DoomedIds(doomed) && e in Bucket(f.incoming, target) && e.from !in ids && e.from in nodes
    ensures e.from in ChangedIds(AllDetachChanges(f, nodes, doomed, ids))
    decreases |doomed|
  {
    var last, front := doomed[|doomed| - 1], doomed[..|doomed| - 1];
    assert doomed == front + [last];
    var all := AllDetachChanges(f, nodes, doomed, ids);
    if target == last.id {
      DetachCovers(nodes, target, Bucket(f.incoming, target), ids, e);
      var c :| c in DetachChanges(nodes, target, Bucket(f.incoming, target), ids) && c.id == e.from;
      assert c in all;
    } else {
      AllDetachCovers(f, nodes, front, ids, target, e);
      var c :| c in AllDetachChanges(f, nodes, front, ids) && c.id == e.from;
      assert c in all;
    }
  }

  lemma {:induction false} DetachedStay(nodes: map<ObjectId, EncodedNode>, target: ObjectId, edges: seq<Edge>,
                                        doomed: set<ObjectId>)
    ensures forall c | c in DetachChanges(nodes, target, edges, doomed) :: c.id in nodes && c.id !in doomed
    decreases |edges|
  {
    if edges != [] {
      DetachedStay(nodes, target, edges[..|edges| - 1], doomed);
    }
  }

  lemma {:induction false} DeleteReported(doomed: seq<Doomed>)
    ensures ChangedIds(DeleteChanges(doomed)) == DoomedIds(doomed)
    decreases |doomed|
  {
    if doomed != [] {
      var last, front := doomed[|doomed| - 1], doomed[..|doomed| - 1];
      DeleteReported(front);
      assert doomed == front + [last];
      var change := Change(last.id, last.alias, "", Deleting, JsSummary(last.id), JsUndefined);
      assert DeleteChanges(doomed) == DeleteChanges(front) + [change];
      ChangedIdsConcat(DeleteChanges(front), [change]);
      assert ChangedIds([change]) == {last.id};
    }
  }

  lemma ChangedIdsConcat(a: seq<Change>, b: seq<Change>)
    ensures ChangedIds(a + b) == ChangedIds(a) + ChangedIds(b)
  {
    forall id ensures id in ChangedIds(a + b) <==> id in ChangedIds(a) + ChangedIds(b) {
      if id in ChangedIds(a) {
        var c :| c in a && c.id == id;
        assert c in a + b;
      }
      if id in ChangedIds(b) {
        var c :| c in b && c.id == id;
        assert c in a + b;
      }
    }
  }

  /** The doomed nodes are exactly those some row denotes by a deleted alias. */
  lemma {:induction false} DoomedExact(st: Edit, jobs: seq<Job<string>>, id: ObjectId)
    ensures id in DoomedIds(DoomedBy(st, jobs)) <==>
            exists job | job in jobs :: Denoted(st, job.row, job.item) == Some(id)
    decreases |jobs|
  {
    if jobs != [] {
      var front, last := jobs[..|jobs| - 1], jobs[|jobs| - 1];
      DoomedExact(st, front, id);
      assert jobs == front + [last];
      var before, all := DoomedBy(st, front), DoomedBy(st, jobs);
      assert all == before || all == before + [Doomed(Denoted(st, last.row, last.item).value, last.item)];
      assert forall d | d in before :: d in all;
      assert all != before ==> all[|before|] in all;
    }
  }

  /** References left after detaching avoid the doomed, provided every reference to a doomed node was covered. */
  lemma DetachedClosed(nodes: map<ObjectId, EncodedNode>, parents: set<ObjectId>, doomed: set<ObjectId>)
    requires ClosedNodes(nodes)
    requires forall from, to | from in nodes && from !in doomed && to in doomed && RefersTo(nodes[from], to) ::
             from in parents
    ensures ClosedNodes(Detached(nodes, parents, doomed))
  {
    var nodes' := Detached(nodes, parents, doomed);
    forall from, to | from in nodes' && RefersTo(nodes'[from], to) ensures to in nodes' {
      DetachExact(nodes[from], doomed, to);
    }
  }

  lemma ShrunkClosed(base: map<ObjectId, EncodedNode>, nodes: map<ObjectId, EncodedNode>)
    requires Shrunk(base, nodes) && ClosedNodes(base)
    ensures ClosedNodes(nodes)
  {
  }

  /** Deleting keeps the graph closed although the incoming edges are those from before SET and REMOVE. */
  lemma DeleteKeepsClosed(f: Frame, base: map<ObjectId, EncodedNode>, st: Edit, delete: seq<string>)
    requires Healthy(f.root, base) && IncomingCovers(f.incoming, base) && Shrunk(base, st.nodes)
    requires DeleteAll(f, st, delete).Some?
    ensures Healthy(f.root, DeleteAll(f, st, delete).value.nodes)
  {
    ShrunkClosed(base, st.nodes);
    if delete != [] {
      var doomed := DoomedBy(st, Jobs(|st.bindings|, delete));
      var ids := DoomedIds(doomed);
      var parents := ChangedIds(AllDetachChanges(f, st.nodes, doomed, ids));
      forall from, to | from in st.nodes && from !in ids && to in ids && RefersTo(st.nodes[from], to)
        ensures from in parents {
        assert CoveredAt(f.incoming, from, to);
        var e :| e in Bucket(f.incoming, to) && e.from == from;
        AllDetachCovers(f, st.nodes, doomed, ids, to, e);
      }
      DetachedClosed(st.nodes, parents, ids);
    }
  }

  lemma DeleteKeepsCovered(f: Frame, base: map<ObjectId, EncodedNode>, st: Edit, delete: seq<string>)
    requires Covered(base, st) && DeleteAll(f, st, delete).Some?
    ensures Covered(base, DeleteAll(f, st, delete).value)
  {
    if delete != [] {
      var doomed := DoomedBy(st, Jobs(|st.bindings|, delete));
      var detaching := AllDetachChanges(f, st.nodes, doomed, DoomedIds(doomed));
      DeleteReported(doomed);
      ChangedIdsConcat(st.changes, detaching);
      ChangedIdsConcat(st.changes + detaching, DeleteChanges(doomed));
    }
  }

  // CREATE and MERGE.

  lemma {:induction false} FieldsHoldNoReference(cx: Context, b: Binding, fields: seq<Field>)
    ensures EvaluateFields(cx, b, fields).Some? ==> forall p | p in EvaluateFields(cx, b, fields).value :: !p.value.Ref?
    decreases |fields|
  {
    if fields != [] {
      FieldsHoldNoReference(cx, b, fields[..|fields| - 1]);
    }
  }

  lemma AddedIsHealthy(root: EncodedValue, nodes: map<ObjectId, EncodedNode>, id: ObjectId, node: EncodedNode)
    requires Healthy(root, nodes) && forall x | RefersTo(node, x) :: x in nodes || x == id
    ensures Healthy(root, nodes[id := node])
  {
  }

  ghost predicate Good(f: Frame, base: map<ObjectId, EncodedNode>, st: Edit) {
    Healthy(f.root, st.nodes) && Covered(base, st)
  }

  lemma EditedIsGood(f: Frame, base: map<ObjectId, EncodedNode>, st: Edit, id: ObjectId, node: EncodedNode,
                     change: Change)
    requires Good(f, base, st) && change.id == id && forall x | RefersTo(node, x) :: x in st.nodes || x == id
    ensures Good(f, base, Edited(st, id, node, change))
  {
    AddedIsHealthy(f.root, st.nodes, id, node);
    EditedCovered(base, st, id, node, change);
  }

  lemma AppendIsGood(f: Frame, base: map<ObjectId, EncodedNode>, st: Edit, collection: ObjectId, id: ObjectId,
                     alias: string, path: string)
    requires Good(f, base, st) && id in st.nodes && AppendTo(st, collection, id, alias, path).Some?
    ensures Good(f, base, AppendTo(st, collection, id, alias, path).value)
  {
    var node := AppendReference(st.nodes[collection], id).value;
    forall x | RefersTo(node, x) ensures x in st.nodes {
      AppendAddsOne(st.nodes[collection], id, x);
    }
    EditedIsGood(f, base, st, collection, node, Change(collection, alias, path, Attaching, JsUndefined,
                                                       JsReference(id)));
  }

  lemma StartIsGood(f: Frame, base: map<ObjectId, EncodedNode>, st: Edit, parent: ObjectId, into: Target, id: ObjectId)
    requires Good(f, base, st) && id in st.nodes && parent in st.nodes && st.nodes[parent].ObjectNode? &&
             into.path.Some?
    ensures Good(f, base, StartCollection(st, parent, into, id))
  {
    var collection, node, name := NextId(st.nodes), st.nodes[parent], into.path.value.text;
    var made := Change(collection, "$collection", "", Creating, JsUndefined, JsArray([]));
    var st1 := Edited(st, collection, ArrayNode([Ref(id)]), made);
    EditedIsGood(f, base, st, collection, ArrayNode([Ref(id)]), made);
    var node' := node.(props := SetProperty(node.props, name, Ref(collection)));
    forall x | RefersTo(node', x) ensures x in st1.nodes {
      if x != collection {
        SetPropertySlots(node.props, name, Ref(collection), Ref(x));
        assert RefersTo(st.nodes[parent], x);
      }
    }
    EditedIsGood(f, base, st1, parent, node', Change(parent, into.alias, name, Attaching, JsUndefined,
                                                     JsReference(collection)));
  }

  lemma AttachIsGood(f: Frame, base: map<ObjectId, EncodedNode>, st: Edit, b: Binding, into: Target, id: ObjectId)
    requires Good(f, base, st) && id in st.nodes && AttachCreated(st, b, into, id).Some?
    ensures Good(f, base, AttachCreated(st, b, into, id).value)
  {
    var parent := b[into.alias];
    if into.path.None? {
      AppendIsGood(f, base, st, parent, id, into.alias, "");
    } else {
      var existing := GetNodePath(st.nodes[parent], into.path.value);
      if existing.Some? {
        AppendIsGood(f, base, st, existing.value.id, id, into.alias, into.path.value.text);
      } else {
        StartIsGood(f, base, st, parent, into, id);
      }
    }
  }

  lemma CreateIsGood(f: Frame, base: map<ObjectId, EncodedNode>, st: Edit, row: nat, c: CreateClause,
                     props: seq<Property>,
                     kind: Kind, path: string)
    requires Good(f, base, st) && row < |st.bindings| && (forall p | p in props :: !p.value.Ref?)
    requires CreateNode(st, row, c, props, kind, path).Some?
    ensures Good(f, base, CreateNode(st, row, c, props, kind, path).value)
  {
    var id := NextId(st.nodes);
    var node, change := ObjectNode(c.typeName, props), Change(id, c.alias, path, kind, JsUndefined, JsSummary(id));
    forall x | RefersTo(node, x) ensures false {
      PropertySlotsMember(props, Ref(x));
    }
    EditedIsGood(f, base, st, id, node, change);
    var b: Binding := st.bindings[row][c.alias := id];
    var made := Edited(st, id, node, change).(bindings := st.bindings[row := b]);
    assert Good(f, base, made);
    AttachIsGood(f, base, made, b, c.into, id);
  }

  ghost function StaysGood(f: Frame, base: map<ObjectId, EncodedNode>): Edit -> bool {
    (st: Edit) => Good(f, base, st)
  }

  lemma CreateStepIsGood(f: Frame, base: map<ObjectId, EncodedNode>, st: Edit, job: Job<CreateClause>)
    requires Good(f, base, st) && CreateStep(f, st, job).Some?
    ensures Good(f, base, CreateStep(f, st, job).value)
  {
    var props := EvaluateFields(At(f, st), st.bindings[job.row], job.item.fields).value;
    FieldsHoldNoReference(At(f, st), st.bindings[job.row], job.item.fields);
    CreateIsGood(f, base, st, job.row, job.item, props, Creating, "");
  }

  lemma MergeStepIsGood(f: Frame, base: map<ObjectId, EncodedNode>, st: Edit, job: Job<MergeClause>)
    requires Good(f, base, st) && MergeStep(f, st, job).Some?
    ensures Good(f, base, MergeStep(f, st, job).value)
  {
    var c := job.item.create;
    var props := EvaluateFields(At(f, st), st.bindings[job.row], c.fields).value;
    FieldsHoldNoReference(At(f, st), st.bindings[job.row], c.fields);
    var collection, on := ResolveCollection(st, st.bindings[job.row], c.into).value, job.item.on.value;
    var found := FindCandidate(st.nodes, CollectionItems(collection), on, PathToJs(FindProperty(props, on.text)));
    if found.NotFound? {
      CreateIsGood(f, base, st, job.row, c, props, Merging, on.text);
    }
  }

  lemma CreateAllIsGood(f: Frame, base: map<ObjectId, EncodedNode>, st: Edit, items: seq<CreateClause>)
    requires Good(f, base, st) && CreateAll(f, st, items).Some?
    ensures Good(f, base, CreateAll(f, st, items).value)
  {
    forall s, job | StaysGood(f, base)(s) && CreateSteps(f)(s, job).Some?
      ensures StaysGood(f, base)(CreateSteps(f)(s, job).value) {
      CreateStepIsGood(f, base, s, job);
    }
    FoldKeeps(st, Jobs(|st.bindings|, items), CreateSteps(f), StaysGood(f, base));
  }

  lemma MergeAllIsGood(f: Frame, base: map<ObjectId, EncodedNode>, st: Edit, items: seq<MergeClause>)
    requires Good(f, base, st) && MergeAll(f, st, items).Some?
    ensures Good(f, base, MergeAll(f, st, items).value)
  {
    forall s, job | StaysGood(f, base)(s) && MergeSteps(f)(s, job).Some?
      ensures StaysGood(f, base)(MergeSteps(f)(s, job).value) {
      MergeStepIsGood(f, base, s, job);
    }
    FoldKeeps(st, Jobs(|st.bindings|, items), MergeSteps(f), StaysGood(f, base));
  }

  /**
   * Any update takes a closed graph to a closed one with its root still there, and reports every node it adds, removes
   * or alters. The incoming edges need only be those of the graph the statement started from.
   */
  lemma UpdateIsGood(f: Frame, nodes: map<ObjectId, EncodedNode>, bindings: seq<Binding>, u: Update)
    requires Healthy(f.root, nodes) && IncomingCovers(f.incoming, nodes) &&
             UpdateAll(f, Edit(nodes, bindings, []), u).Some?
    ensures Good(f, nodes, UpdateAll(f, Edit(nodes, bindings, []), u).value)
  {
    var st := Edit(nodes, bindings, []);
    SetAllShrinks(f, nodes, st, u.assign);
    var afterSet := SetAll(f, st, u.assign).value;
    RemoveAllShrinks(nodes, afterSet, u.remove);
    var afterRemove := RemoveAll(afterSet, u.remove).value;
    DeleteKeepsClosed(f, nodes, afterRemove, u.delete);
    DeleteKeepsCovered(f, nodes, afterRemove, u.delete);
    var afterDelete := DeleteAll(f, afterRemove, u.delete).value;
    CreateAllIsGood(f, nodes, afterDelete, u.create);
    MergeAllIsGood(f, nodes, CreateAll(f, afterDelete, u.create).value, u.merge);
  }

  // The graph index covers every reference.

  lemma {:induction false} EntryVisited(entries: seq<Entry>, x: EncodedValue)
    requires x in EntrySlots(entries)
    ensures exists v | v in EntryVisits(entries) :: v.value == x
    decreases |entries|
  {
    EntrySlotsMember(entries, x);
    var i :| 0 <= i < |entries| && (entries[i].key == x || entries[i].value == x);
    var last := |entries| - 1;
    if i == last {
      var all := EntryVisits(entries);
      assert all[|all| - 2].value == entries[last].key && all[|all| - 1].value == entries[last].value;
      assert all[|all| - 2] in all && all[|all| - 1] in all;
    } else {
      EntrySlotsMember(entries[..last], x);
      assert entries[..last][i] == entries[i];
      EntryVisited(entries[..last], x);
      var v :| v in EntryVisits(entries[..last]) && v.value == x;
      assert v in EntryVisits(entries);
    }
  }

  lemma SlotVisited(node: EncodedNode, x: EncodedValue)
    requires x in Slots(node)
    ensures exists v | v in Visits(node) :: v.value == x
  {
    match node
    case MapNode(entries) =>
      EntryVisited(entries, x);
      var v :| v in EntryVisits(entries) && v.value == x;
      assert v in Visits(node);
    case ObjectNode(_, props) =>
      PropertySlotsMember(props, x);
      var i :| 0 <= i < |props| && props[i].value == x;
      assert PropertyVisits(props)[i] in Visits(node);
    case ArrayNode(items) =>
      var i :| 0 <= i < |items| && items[i] == x;
      assert ItemVisits(items)[i] in Visits(node);
    case SetNode(items) =>
      var i :| 0 <= i < |items| && items[i] == x;
      assert ItemVisits(items)[i] in Visits(node);
    case LazyNode(_) =>
  }

  lemma ReferenceCovered(ix: GraphIndex, nodes: map<ObjectId, EncodedNode>, from: ObjectId, to: ObjectId)
    requires GraphOf(ix, nodes) && from in nodes && RefersTo(nodes[from], to)
    ensures CoveredAt(ix.incoming, from, to)
  {
    assert Unfold(true);
    SlotVisited(nodes[from], Ref(to));
    var v :| v in Visits(nodes[from]) && v.value == Ref(to);
    var e := Edge(from, to, v.path, EdgeLabel(v.path));
    assert v == Visit(e.path, Ref(e.to));
    assert e in Bucket(ix.outgoing, e.from);
    assert e in Bucket(ix.incoming, e.to);
  }

  ghost predicate CoveredAt(incoming: map<ObjectId, seq<Edge>>, from: ObjectId, to: ObjectId) {
    exists e | e in Bucket(incoming, to) :: e.from == from
  }

  /** The incoming edges of the graph index name the source of every reference. */
  lemma IndexCoversReferences(ix: GraphIndex, nodes: map<ObjectId, EncodedNode>)
    requires GraphOf(ix, nodes)
    ensures IncomingCovers(ix.incoming, nodes)
  {
    forall from, to | from in nodes && RefersTo(nodes[from], to) ensures CoveredAt(ix.incoming, from, to) {
      ReferenceCovered(ix, nodes, from, to);
    }
  }
}
