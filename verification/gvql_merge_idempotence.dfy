/**
 * Running a MERGE a second time over the same bindings: what it finds again, what it creates again, and when it
 * fails.
 */
module GvqlMergeIdempotence {
  import opened EncodedGraph
  import opened GvqlValues
  import opened GvqlExpressions
  import opened GvqlNodeEdits
  import opened GvqlMutations
  import opened GvqlMutationSafety

  // MERGE only grows the graph.

  /** Appended references, or properties that were missing and now hold a reference. */
  predicate ItemsGrown(items: seq<EncodedValue>, items': seq<EncodedValue>) {
    items <= items' && forall i | |items| <= i < |items'| :: items'[i].Ref?
  }

  ghost predicate NodeGrown(node: EncodedNode, node': EncodedNode) {
    match node
    case ArrayNode(items) => node'.ArrayNode? && ItemsGrown(items, node'.items)
    case SetNode(items) => node'.SetNode? && ItemsGrown(items, node'.items)
    case ObjectNode(t, props) =>
      node'.ObjectNode? && node'.typeName == t &&
      forall name :: FindProperty(node'.props, name) == FindProperty(props, name) ||
                     (FindProperty(props, name).None? && FindProperty(node'.props, name).Some? &&
                      FindProperty(node'.props, name).value.Ref?)
    case _ => node' == node
  }

  ghost predicate Grown(nodes: map<ObjectId, EncodedNode>, nodes': map<ObjectId, EncodedNode>) {
    forall id | id in nodes :: id in nodes' && NodeGrown(nodes[id], nodes'[id])
  }

  lemma NodeGrownTrans(a: EncodedNode, b: EncodedNode, c: EncodedNode)
    requires NodeGrown(a, b) && NodeGrown(b, c)
    ensures NodeGrown(a, c)
  {
    if a.ObjectNode? {
      forall name
        ensures FindProperty(c.props, name) == FindProperty(a.props, name) ||
                (FindProperty(a.props, name).None? && FindProperty(c.props, name).Some? &&
                 FindProperty(c.props, name).value.Ref?)
      {
        assert FindProperty(b.props, name) == FindProperty(a.props, name) || FindProperty(a.props, name).None?;
        assert FindProperty(c.props, name) == FindProperty(b.props, name) || FindProperty(b.props, name).None?;
      }
    }
  }

  lemma GrownTrans(a: map<ObjectId, EncodedNode>, b: map<ObjectId, EncodedNode>, c: map<ObjectId, EncodedNode>)
    requires Grown(a, b) && Grown(b, c)
    ensures Grown(a, c)
  {
    forall id | id in a ensures id in c && NodeGrown(a[id], c[id]) {
      NodeGrownTrans(a[id], b[id], c[id]);
    }
  }

  lemma GrownSelf(nodes: map<ObjectId, EncodedNode>)
    ensures Grown(nodes, nodes)
  {
  }

  lemma PutGrows(nodes: map<ObjectId, EncodedNode>, id: ObjectId, node: EncodedNode)
    requires id in nodes ==> NodeGrown(nodes[id], node)
    ensures Grown(nodes, nodes[id := node])
  {
    GrownSelf(nodes);
  }

  lemma AppendGrows(st: Edit, collection: ObjectId, id: ObjectId, alias: string, path: string)
    requires AppendTo(st, collection, id, alias, path).Some?
    ensures Grown(st.nodes, AppendTo(st, collection, id, alias, path).value.nodes)
  {
    PutGrows(st.nodes, collection, AppendReference(st.nodes[collection], id).value);
  }

  lemma StartGrows(st: Edit, parent: ObjectId, into: Target, id: ObjectId)
    requires parent in st.nodes && st.nodes[parent].ObjectNode? && into.path.Some?
    requires FindProperty(st.nodes[parent].props, into.path.value.text).None?
    ensures Grown(st.nodes, StartCollection(st, parent, into, id).nodes)
  {
    var collection, node, name := NextId(st.nodes), st.nodes[parent], into.path.value.text;
    var node' := node.(props := SetProperty(node.props, name, Ref(collection)));
    forall q ensures FindProperty(node'.props, q) == if q == name then Some(Ref(collection))
           else FindProperty(node.props, q) {
      SetPropertyReads(node.props, name, Ref(collection), q);
    }
    var middle := st.nodes[collection := ArrayNode([Ref(id)])];
    PutGrows(st.nodes, collection, ArrayNode([Ref(id)]));
    PutGrows(middle, parent, node');
    GrownTrans(st.nodes, middle, middle[parent := node']);
  }

  lemma AttachGrows(st: Edit, b: Binding, into: Target, id: ObjectId)
    requires AttachCreated(st, b, into, id).Some?
    ensures Grown(st.nodes, AttachCreated(st, b, into, id).value.nodes)
  {
    var parent := b[into.alias];
    if into.path.None? {
      AppendGrows(st, parent, id, into.alias, "");
    } else {
      var existing := GetNodePath(st.nodes[parent], into.path.value);
      if existing.Some? {
        AppendGrows(st, existing.value.id, id, into.alias, into.path.value.text);
      } else {
        StartGrows(st, parent, into, id);
      }
    }
  }

  ghost function Made(st: Edit, row: nat, c: CreateClause, props: seq<Property>, kind: GvqlMutations.Kind,
                      path: string): Edit
    requires row < |st.bindings|
  {
    var id := NextId(st.nodes);
    var b: Binding := st.bindings[row][c.alias := id];
    Edited(st, id, ObjectNode(c.typeName, props),
           Change(id, c.alias, path, kind, JsUndefined, JsSummary(id))).(bindings := st.bindings[row := b])
  }

  lemma CreateGrows(st: Edit, row: nat, c: CreateClause, props: seq<Property>, kind: GvqlMutations.Kind, path: string)
    requires row < |st.bindings| && CreateNode(st, row, c, props, kind, path).Some?
    ensures var made, st' := Made(st, row, c, props, kind, path), CreateNode(st, row, c, props, kind, path).value;
            && Grown(st.nodes, made.nodes) && Grown(made.nodes, st'.nodes) && Grown(st.nodes, st'.nodes)
            && st'.bindings == made.bindings
  {
    var id, made := NextId(st.nodes), Made(st, row, c, props, kind, path);
    PutGrows(st.nodes, id, ObjectNode(c.typeName, props));
    AttachGrows(made, made.bindings[row], c.into, id);
    GrownTrans(st.nodes, made.nodes, AttachCreated(made, made.bindings[row], c.into, id).value.nodes);
  }

  /** The ON value of a job, and the properties it would create. */
  function JobProps(f: Frame, st: Edit, job: Job<MergeClause>): Option<seq<Property>>
    requires job.row < |st.bindings|
  {
    EvaluateFields(At(f, st), st.bindings[job.row], job.item.create.fields)
  }

  function OnValue(props: seq<Property>, on: Path): JsValue {
    PathToJs(FindProperty(props, on.text))
  }

  lemma MergeStepGrows(f: Frame, st: Edit, job: Job<MergeClause>)
    requires MergeStep(f, st, job).Some?
    ensures Grown(st.nodes, MergeStep(f, st, job).value.nodes)
  {
    var props, on := JobProps(f, st, job).value, job.item.on.value;
    var collection := ResolveCollection(st, st.bindings[job.row], job.item.create.into).value;
    if FindCandidate(st.nodes, CollectionItems(collection), on, OnValue(props, on)).NotFound? {
      CreateGrows(st, job.row, job.item.create, props, Merging, on.text);
    } else {
      GrownSelf(st.nodes);
    }
  }

  // Looking up again in a grown graph.

  /** A primitive the first lookup compared: never undefined, never a reference, and not a big integer. */
  predicate Comparable(v: JsValue) {
    !v.JsUndefined? && !v.JsReference? && !v.JsBigInt?
  }

  /** A path reads what it read before, or a new reference where there was nothing. */
  lemma GrownReads(node: EncodedNode, node': EncodedNode, path: Path)
    requires NodeGrown(node, node')
    ensures GetNodePath(node', path) == GetNodePath(node, path) ||
            (GetNodePath(node, path).None? && GetNodePath(node', path).Some? && GetNodePath(node', path).value.Ref?)
  {
  }

  /** Growth changes no comparison with a comparable value. */
  lemma GrownCompares(node: EncodedNode, node': EncodedNode, on: Path, expected: JsValue)
    requires NodeGrown(node, node') && Comparable(expected)
    ensures SameMergeValue(PathToJs(GetNodePath(node', on)), expected) ==
            SameMergeValue(PathToJs(GetNodePath(node, on)), expected)
  {
    GrownReads(node, node', on);
  }

  lemma {:induction false} FoundAgain(nodes: map<ObjectId, EncodedNode>, nodes': map<ObjectId, EncodedNode>,
                                      items: seq<EncodedValue>,
                                      more: seq<EncodedValue>, on: Path, expected: JsValue)
    requires Grown(nodes, nodes') && Comparable(expected) && forall id | Ref(id) in items :: id in nodes
    requires !FindCandidate(nodes, items, on, expected).Failed?
    ensures FindCandidate(nodes', items + more, on, expected) ==
            if FindCandidate(nodes, items, on, expected).Found? then FindCandidate(nodes, items, on, expected)
            else FindCandidate(nodes', more, on, expected)
    decreases |items|
  {
    if items == [] {
      assert items + more == more;
    } else {
      assert (items + more)[0] == items[0] && (items + more)[1..] == items[1..] + more;
      var item := items[0];
      assert item in items && forall id | Ref(id) in items[1..] :: Ref(id) in items;
      if item.Ref? {
        GrownCompares(nodes[item.id], nodes'[item.id], on, expected);
        if SameMergeValue(PathToJs(GetNodePath(nodes[item.id], on)), expected) == Some(false) {
          FoundAgain(nodes, nodes', items[1..], more, on, expected);
        }
      } else {
        FoundAgain(nodes, nodes', items[1..], more, on, expected);
      }
    }
  }

  /** The collection a target names after the first run, given the one it named before. */
  lemma ResolvedAgain(st: Edit, nodes': map<ObjectId, EncodedNode>, b: Binding, into: Target)
    requires Grown(st.nodes, nodes') && ResolveCollection(st, b, into).Some?
    requires into.path.Some? && b[into.alias] in st.nodes ==>
             GetNodePath(st.nodes[b[into.alias]], into.path.value).Some?
    ensures var again := ResolveCollection(Edit(nodes', st.bindings, []), b, into);
            again.Some? && NodeGrown(ResolveCollection(st, b, into).value, again.value)
  {
    var parent := b[into.alias];
    assert NodeGrown(st.nodes[parent], nodes'[parent]);
    if into.path.Some? {
      GrownReads(st.nodes[parent], nodes'[parent], into.path.value);
    }
  }

  lemma GrownCollection(node: EncodedNode, node': EncodedNode) returns (more: seq<EncodedValue>)
    requires NodeGrown(node, node')
    ensures CollectionItems(node') == CollectionItems(node) + more
  {
    var items, items' := CollectionItems(node), CollectionItems(node');
    more := items'[|items|..];
    assert items' == items'[..|items|] + more;
  }

  /** What a target's collection holds: only ids of the graph. */
  lemma CollectionIsClosed(root: EncodedValue, st: Edit, b: Binding, into: Target)
    requires Healthy(root, st.nodes) && ResolveCollection(st, b, into).Some?
    ensures forall id | Ref(id) in CollectionItems(ResolveCollection(st, b, into).value) :: id in st.nodes
  {
    var parent := b[into.alias];
    forall id | Ref(id) in CollectionItems(ResolveCollection(st, b, into).value) ensures id in st.nodes {
      if into.path.None? {
        assert RefersTo(st.nodes[parent], id);
      } else {
        var existing := GetNodePath(st.nodes[parent], into.path.value);
        if existing.Some? {
          assert RefersTo(st.nodes[existing.value.id], id);
        }
      }
    }
  }

  /** What the second run compares with: a value the fields still give, with the same JSON form as in the first run. */
  ghost predicate OnAgrees(f: Frame, f2: Frame, st: Edit, job: Job<MergeClause>, nodes': map<ObjectId, EncodedNode>)
    requires MergeStep(f, st, job).Some?
  {
    var again := JobProps(f2, Edit(nodes', st.bindings, []), job);
    again.Some? && JsonForm(OnValue(again.value, job.item.on.value)) == JsonForm(OnOf(f, st, job))
  }

  /** The ON value of a job that succeeds. */
  ghost function OnOf(f: Frame, st: Edit, job: Job<MergeClause>): JsValue
    requires MergeStep(f, st, job).Some?
  {
    OnValue(JobProps(f, st, job).value, job.item.on.value)
  }

  lemma {:induction false} SameExpected(nodes: map<ObjectId, EncodedNode>, items: seq<EncodedValue>, on: Path,
                                        v: JsValue,
                                        w: JsValue)
    requires JsonForm(v) == JsonForm(w)
    ensures FindCandidate(nodes, items, on, v) == FindCandidate(nodes, items, on, w)
    decreases |items|
  {
    if items != [] {
      SameExpected(nodes, items[1..], on, v, w);
    }
  }

  /** A job that found its node finds the same node again. */
  lemma FoundJobAgain(f: Frame, f2: Frame, st: Edit, job: Job<MergeClause>, nodes': map<ObjectId, EncodedNode>)
    requires MergeStep(f, st, job).Some? && Healthy(f.root, st.nodes) && Grown(st.nodes, nodes')
    requires OnAgrees(f, f2, st, job, nodes') && Comparable(OnOf(f, st, job)) && JobCandidate(f, st, job).Found?
    ensures MergeStep(f2, Edit(nodes', st.bindings, []), job) ==
            Some(Edit(nodes', MergeStep(f, st, job).value.bindings, []))
  {
    var b, into, on := st.bindings[job.row], job.item.create.into, job.item.on.value;
    var collection, expected := ResolveCollection(st, b, into).value, OnOf(f, st, job);
    ResolvedAgain(st, nodes', b, into);
    CollectionIsClosed(f.root, st, b, into);
    var again := ResolveCollection(Edit(nodes', st.bindings, []), b, into).value;
    var more := GrownCollection(collection, again);
    FoundAgain(st.nodes, nodes', CollectionItems(collection), more, on, expected);
    SameExpected(nodes', CollectionItems(again), on, expected,
                 OnValue(JobProps(f2, Edit(nodes', st.bindings, []), job).value, on));
  }

  /** The new node stands right after the items that were there, in the collection its target names from then on. */
  lemma AttachedLast(st: Edit, b: Binding, into: Target, id: ObjectId)
    requires AttachCreated(st, b, into, id).Some? && ResolveCollection(st, b, into).Some?
    ensures var st' := AttachCreated(st, b, into, id).value;
            && b[into.alias] in st'.nodes
            && (into.path.Some? ==> GetNodePath(st'.nodes[b[into.alias]], into.path.value).Some?)
            && ResolveCollection(st', b, into).Some?
            && CollectionItems(ResolveCollection(st', b, into).value) ==
               CollectionItems(ResolveCollection(st, b, into).value) + [Ref(id)]
  {
    var parent := b[into.alias];
    if into.path.Some? {
      var path := into.path.value;
      var existing := GetNodePath(st.nodes[parent], path);
      if existing.Some? {
        AppendedParentReads(st.nodes[parent], id, path);
      } else {
        StartedLast(st, b, into, id);
      }
    }
  }

  /** Appending to a node does not change what its present positions hold. */
  lemma AppendedParentReads(node: EncodedNode, id: ObjectId, path: Path)
    requires GetNodePath(node, path).Some?
    ensures AppendReference(node, id).Some? ==>
            GetNodePath(AppendReference(node, id).value, path) == GetNodePath(node, path)
  {
  }

  lemma StartedLast(st: Edit, b: Binding, into: Target, id: ObjectId)
    requires into.alias in b && b[into.alias] in st.nodes && st.nodes[b[into.alias]].ObjectNode? && into.path.Some?
    ensures var st' := StartCollection(st, b[into.alias], into, id);
            && b[into.alias] in st'.nodes && GetNodePath(st'.nodes[b[into.alias]], into.path.value).Some?
            && ResolveCollection(st', b, into) == Some(ArrayNode([Ref(id)]))
  {
    var parent, collection, name := b[into.alias], NextId(st.nodes), into.path.value.text;
    SetPropertyReads(st.nodes[parent].props, name, Ref(collection), name);
  }

  /** The ON value a successful job compares: not undefined and not a reference. */
  lemma OnValueIsPrimitive(f: Frame, st: Edit, job: Job<MergeClause>)
    requires MergeStep(f, st, job).Some?
    ensures var v := OnValue(JobProps(f, st, job).value, job.item.on.value);
            !v.JsUndefined? && !v.JsReference? && FindProperty(JobProps(f, st, job).value, job.item.on.value.text).Some?
  {
    var props, name := JobProps(f, st, job).value, job.item.on.value.text;
    FieldsHoldNoReference(At(f, st), st.bindings[job.row], job.item.create.fields);
    FoundProperty(props, name);
  }

  function Rebound(bindings: seq<Binding>, row: nat, alias: string, id: ObjectId): seq<Binding>
    requires row < |bindings|
  {
    var b: Binding := bindings[row][alias := id];
    bindings[row := b]
  }

  ghost function JobCandidate(f: Frame, st: Edit, job: Job<MergeClause>): GvqlMutations.Search
    requires MergeStep(f, st, job).Some?
  {
    var collection := ResolveCollection(st, st.bindings[job.row], job.item.create.into).value;
    FindCandidate(st.nodes, CollectionItems(collection), job.item.on.value,
                  OnValue(JobProps(f, st, job).value, job.item.on.value))
  }

  /** Making the node, before it is attached, does not change the collection its target names. */
  lemma MadeResolvesAlike(st: Edit, row: nat, c: CreateClause, props: seq<Property>, path: string)
    requires row < |st.bindings| && c.alias != c.into.alias && ResolveCollection(st, st.bindings[row], c.into).Some?
    ensures var made := Made(st, row, c, props, Merging, path);
            ResolveCollection(made, made.bindings[row], c.into) == ResolveCollection(st, st.bindings[row], c.into)
  {
  }

  /** Where a node was created, it is the first item after those that were there, from then on. */
  lemma CreatedStandsNext(st: Edit, row: nat, c: CreateClause, props: seq<Property>, path: string,
                          nodes': map<ObjectId, EncodedNode>)
    returns (more: seq<EncodedValue>)
    requires row < |st.bindings| && c.alias != c.into.alias && ResolveCollection(st, st.bindings[row], c.into).Some?
    requires CreateNode(st, row, c, props, Merging, path).Some?
    requires Grown(CreateNode(st, row, c, props, Merging, path).value.nodes, nodes')
    ensures var again := ResolveCollection(Edit(nodes', st.bindings, []), st.bindings[row], c.into);
            var items := CollectionItems(ResolveCollection(st, st.bindings[row], c.into).value);
            again.Some? && CollectionItems(again.value) == items + ([Ref(NextId(st.nodes))] + more)
  {
    var id, b, made := NextId(st.nodes), st.bindings[row], Made(st, row, c, props, Merging, path);
    var st' := CreateNode(st, row, c, props, Merging, path).value;
    var items := CollectionItems(ResolveCollection(st, b, c.into).value);
    MadeResolvesAlike(st, row, c, props, path);
    AttachedLast(made, made.bindings[row], c.into, id);
    assert ResolveCollection(st', b, c.into) == ResolveCollection(st', made.bindings[row], c.into);
    ResolvedAgain(st', nodes', b, c.into);
    assert ResolveCollection(Edit(nodes', st.bindings, []), b, c.into) ==
           ResolveCollection(Edit(nodes', st'.bindings, []), b, c.into);
    more := GrownCollection(ResolveCollection(st', b, c.into).value,
                            ResolveCollection(Edit(nodes', st'.bindings, []), b, c.into).value);
    assert items + [Ref(id)] + more == items + ([Ref(id)] + more);
  }

  lemma CreatedIsNext(f: Frame, st: Edit, job: Job<MergeClause>, nodes': map<ObjectId, EncodedNode>)
    returns (more: seq<EncodedValue>)
    requires MergeStep(f, st, job).Some? && JobCandidate(f, st, job).NotFound?
    requires job.item.create.alias != job.item.create.into.alias
    requires Grown(MergeStep(f, st, job).value.nodes, nodes')
    ensures var again := ResolveCollection(Edit(nodes', st.bindings, []), st.bindings[job.row], job.item.create.into);
            var items := CollectionItems(ResolveCollection(st, st.bindings[job.row], job.item.create.into).value);
            again.Some? && CollectionItems(again.value) == items + ([Ref(NextId(st.nodes))] + more)
    ensures MergeStep(f, st, job).value.bindings ==
            Rebound(st.bindings, job.row, job.item.create.alias, NextId(st.nodes))
  {
    var c, props, name := job.item.create, JobProps(f, st, job).value, job.item.on.value.text;
    CreateGrows(st, job.row, c, props, Merging, name);
    more := CreatedStandsNext(st, job.row, c, props, name, nodes');
  }

  /** The created node keeps its ON value as the graph grows. */
  lemma CreatedKeepsValue(f: Frame, st: Edit, job: Job<MergeClause>, nodes': map<ObjectId, EncodedNode>)
    requires MergeStep(f, st, job).Some? && JobCandidate(f, st, job).NotFound? &&
             Grown(MergeStep(f, st, job).value.nodes, nodes')
    ensures NextId(st.nodes) in nodes'
    ensures PathToJs(GetNodePath(nodes'[NextId(st.nodes)], job.item.on.value)) ==
            OnValue(JobProps(f, st, job).value, job.item.on.value)
  {
    var c, props, on, id := job.item.create, JobProps(f, st, job).value, job.item.on.value, NextId(st.nodes);
    CreateGrows(st, job.row, c, props, Merging, on.text);
    var made, st' := Made(st, job.row, c, props, Merging, on.text), MergeStep(f, st, job).value;
    GrownTrans(made.nodes, st'.nodes, nodes');
    assert NodeGrown(made.nodes[id], nodes'[id]);
    OnValueIsPrimitive(f, st, job);
    GrownReads(made.nodes[id], nodes'[id], on);
  }

  /** A job that created its node finds that node again, unless the ON value is a big integer: then it fails. */
  lemma CreatedJobAgain(f: Frame, f2: Frame, st: Edit, job: Job<MergeClause>, nodes': map<ObjectId, EncodedNode>)
    requires MergeStep(f, st, job).Some? && Healthy(f.root, st.nodes) &&
             Grown(MergeStep(f, st, job).value.nodes, nodes')
    requires OnAgrees(f, f2, st, job, nodes')
    requires JobCandidate(f, st, job).NotFound? && job.item.create.alias != job.item.create.into.alias
    ensures MergeStep(f2, Edit(nodes', st.bindings, []), job) ==
            if OnValue(JobProps(f, st, job).value, job.item.on.value).JsBigInt? then None
            else Some(Edit(nodes', MergeStep(f, st, job).value.bindings, []))
  {
    var on, id := job.item.on.value, NextId(st.nodes);
    var expected := OnValue(JobProps(f, st, job).value, on);
    var items := CollectionItems(ResolveCollection(st, st.bindings[job.row], job.item.create.into).value);
    var more := CreatedIsNext(f, st, job, nodes');
    CreatedKeepsValue(f, st, job, nodes');
    OnValueIsPrimitive(f, st, job);
    var rest := [Ref(id)] + more;
    assert rest[0] == Ref(id);
    SameExpected(nodes', items + rest, on, expected,
                 OnValue(JobProps(f2, Edit(nodes', st.bindings, []), job).value, on));
    if expected.JsBigInt? {
      PresentCandidateFails(nodes', items, rest, on, expected);
    } else {
      MergeStepGrows(f, st, job);
      GrownTrans(st.nodes, MergeStep(f, st, job).value.nodes, nodes');
      CollectionIsClosed(f.root, st, st.bindings[job.row], job.item.create.into);
      FoundAgain(st.nodes, nodes', items, rest, on, expected);
    }
  }

  /** Comparing any present candidate with a big integer fails. */
  lemma {:induction false} PresentCandidateFails(nodes: map<ObjectId, EncodedNode>, items: seq<EncodedValue>,
                                                 more: seq<EncodedValue>,
                                                 on: Path, expected: JsValue)
    requires expected.JsBigInt? && more != [] && more[0].Ref? && more[0].id in nodes
    ensures FindCandidate(nodes, items + more, on, expected).Failed?
    decreases |items|
  {
    if items == [] {
      assert items + more == more;
    } else {
      assert (items + more)[0] == items[0] && (items + more)[1..] == items[1..] + more;
      PresentCandidateFails(nodes, items[1..], more, on, expected);
    }
  }

  /** A job that found its node did not compare with a big integer. */
  lemma {:induction false} FoundIsComparable(nodes: map<ObjectId, EncodedNode>, items: seq<EncodedValue>, on: Path,
                                             expected: JsValue)
    requires FindCandidate(nodes, items, on, expected).Found?
    ensures !expected.JsBigInt?
    decreases |items|
  {
    if !items[0].Ref? || items[0].id !in nodes ||
       SameMergeValue(PathToJs(GetNodePath(nodes[items[0].id], on)), expected) != Some(true) {
      FoundIsComparable(nodes, items[1..], on, expected);
    }
  }

  /** A clause that merges into its own alias repeats only where it finds its node. */
  ghost predicate OwnAliasFinds(f: Frame, st: Edit, job: Job<MergeClause>)
    requires MergeStep(f, st, job).Some?
  {
    job.item.create.alias == job.item.create.into.alias ==> JobCandidate(f, st, job).Found?
  }

  /** One job of the second run: the same node is bound and nothing is created; a big integer fails it. */
  lemma JobAgain(f: Frame, f2: Frame, st: Edit, job: Job<MergeClause>, nodes': map<ObjectId, EncodedNode>)
    requires MergeStep(f, st, job).Some? && Healthy(f.root, st.nodes)
    requires Grown(MergeStep(f, st, job).value.nodes, nodes')
    requires OnAgrees(f, f2, st, job, nodes') && OwnAliasFinds(f, st, job)
    ensures MergeStep(f2, Edit(nodes', st.bindings, []), job) ==
            if OnOf(f, st, job).JsBigInt? then None else Some(Edit(nodes', MergeStep(f, st, job).value.bindings, []))
  {
    if JobCandidate(f, st, job).NotFound? {
      CreatedJobAgain(f, f2, st, job, nodes');
    } else {
      var items := CollectionItems(ResolveCollection(st, st.bindings[job.row], job.item.create.into).value);
      OnValueIsPrimitive(f, st, job);
      FoundIsComparable(st.nodes, items, job.item.on.value, OnOf(f, st, job));
      MergeStepGrows(f, st, job);
      GrownTrans(st.nodes, MergeStep(f, st, job).value.nodes, nodes');
      FoundJobAgain(f, f2, st, job, nodes');
    }
  }

  // New references lead to new nodes only.

  ghost predicate Refers(nodes: map<ObjectId, EncodedNode>, from: ObjectId, to: ObjectId) {
    from in nodes && RefersTo(nodes[from], to)
  }

  /** Every reference of `nodes'` that `nodes` did not have leads outside `nodes`. */
  ghost predicate OnlyFresh(nodes: map<ObjectId, EncodedNode>, nodes': map<ObjectId, EncodedNode>) {
    forall id, x | Refers(nodes', id, x) && !Refers(nodes, id, x) :: x !in nodes
  }

  lemma FreshTrans(a: map<ObjectId, EncodedNode>, b: map<ObjectId, EncodedNode>, c: map<ObjectId, EncodedNode>)
    requires OnlyFresh(a, b) && OnlyFresh(b, c) && a.Keys <= b.Keys
    ensures OnlyFresh(a, c)
  {
    forall id, x | Refers(c, id, x) && !Refers(a, id, x) ensures x !in a {
      assert Refers(b, id, x) || x !in b;
    }
  }

  /** Writing a node whose added references lead outside `base`. */
  lemma PutFresh(base: map<ObjectId, EncodedNode>, nodes: map<ObjectId, EncodedNode>, id: ObjectId, node: EncodedNode)
    requires OnlyFresh(base, nodes)
    requires forall x | RefersTo(node, x) :: x !in base || (id in nodes && RefersTo(nodes[id], x))
    ensures OnlyFresh(base, nodes[id := node])
  {
    var nodes' := nodes[id := node];
    forall k, x | Refers(nodes', k, x) && !Refers(base, k, x) ensures x !in base {
      if Refers(nodes, k, x) {
        assert !Refers(base, k, x);
      } else {
        assert k == id && RefersTo(node, x);
      }
    }
  }

  lemma AppendFresh(base: map<ObjectId, EncodedNode>, st: Edit, collection: ObjectId, id: ObjectId, alias: string,
                    path: string)
    requires OnlyFresh(base, st.nodes) && id !in base && AppendTo(st, collection, id, alias, path).Some?
    ensures OnlyFresh(base, AppendTo(st, collection, id, alias, path).value.nodes)
  {
    var node := AppendReference(st.nodes[collection], id).value;
    forall x | RefersTo(node, x) ensures x !in base || RefersTo(st.nodes[collection], x) {
      AppendAddsOne(st.nodes[collection], id, x);
    }
    PutFresh(base, st.nodes, collection, node);
  }

  lemma StartFresh(base: map<ObjectId, EncodedNode>, st: Edit, parent: ObjectId, into: Target, id: ObjectId)
    requires OnlyFresh(base, st.nodes) && id !in base && base.Keys <= st.nodes.Keys
    requires parent in st.nodes && st.nodes[parent].ObjectNode? && into.path.Some?
    ensures OnlyFresh(base, StartCollection(st, parent, into, id).nodes)
  {
    var collection, node := NextId(st.nodes), st.nodes[parent];
    var node' := node.(props := SetProperty(node.props, into.path.value.text, Ref(collection)));
    var middle := st.nodes[collection := ArrayNode([Ref(id)])];
    PutFresh(base, st.nodes, collection, ArrayNode([Ref(id)]));
    forall x | RefersTo(node', x) ensures x !in base || RefersTo(node, x) {
      if x != collection {
        SetPropertySlots(node.props, into.path.value.text, Ref(collection), Ref(x));
      }
    }
    PutFresh(base, middle, parent, node');
  }

  lemma CreateFresh(st: Edit, row: nat, c: CreateClause, props: seq<Property>, path: string)
    requires row < |st.bindings| && CreateNode(st, row, c, props, Merging, path).Some?
    requires forall p | p in props :: !p.value.Ref?
    ensures OnlyFresh(st.nodes, CreateNode(st, row, c, props, Merging, path).value.nodes)
  {
    var id, made := NextId(st.nodes), Made(st, row, c, props, Merging, path);
    forall x ensures !RefersTo(ObjectNode(c.typeName, props), x) {
      PropertySlotsMember(props, Ref(x));
    }
    assert OnlyFresh(st.nodes, made.nodes);
    var b := made.bindings[row];
    var parent := b[c.into.alias];
    if c.into.path.None? {
      AppendFresh(st.nodes, made, parent, id, c.into.alias, "");
    } else {
      var existing := GetNodePath(made.nodes[parent], c.into.path.value);
      if existing.Some? {
        AppendFresh(st.nodes, made, existing.value.id, id, c.into.alias, c.into.path.value.text);
      } else {
        StartFresh(st.nodes, made, parent, c.into, id);
      }
    }
  }

  lemma StepFresh(f: Frame, st: Edit, job: Job<MergeClause>)
    requires MergeStep(f, st, job).Some?
    ensures OnlyFresh(st.nodes, MergeStep(f, st, job).value.nodes)
  {
    if JobCandidate(f, st, job).NotFound? {
      FieldsHoldNoReference(At(f, st), st.bindings[job.row], job.item.create.fields);
      CreateFresh(st, job.row, job.item.create, JobProps(f, st, job).value, job.item.on.value.text);
    }
  }

  // Which jobs repeat.

  /** The second run binds the same node and reports nothing. */
  ghost predicate Repeats(f: Frame, f2: Frame, st: Edit, job: Job<MergeClause>, nodes': map<ObjectId, EncodedNode>)
    requires MergeStep(f, st, job).Some?
  {
    MergeStep(f2, Edit(nodes', st.bindings, []), job) == Some(Edit(nodes', MergeStep(f, st, job).value.bindings, []))
  }

  /** The node a job binds, which has the ON value from then on. */
  lemma BoundNode(f: Frame, st: Edit, job: Job<MergeClause>, nodes': map<ObjectId, EncodedNode>) returns (id: ObjectId)
    requires MergeStep(f, st, job).Some? && Grown(MergeStep(f, st, job).value.nodes, nodes')
    ensures MergeStep(f, st, job).value.bindings == Rebound(st.bindings, job.row, job.item.create.alias, id)
    ensures id in nodes'
    ensures JsonForm(PathToJs(GetNodePath(nodes'[id], job.item.on.value))) == JsonForm(OnOf(f, st, job))
    ensures id == if JobCandidate(f, st, job).Found? then JobCandidate(f, st, job).id else NextId(st.nodes)
  {
    var on := job.item.on.value;
    if JobCandidate(f, st, job).NotFound? {
      id := NextId(st.nodes);
      CreateGrows(st, job.row, job.item.create, JobProps(f, st, job).value, Merging, on.text);
      CreatedKeepsValue(f, st, job, nodes');
    } else {
      var items := CollectionItems(ResolveCollection(st, st.bindings[job.row], job.item.create.into).value);
      id := JobCandidate(f, st, job).id;
      FoundHasValue(st.nodes, items, on, OnOf(f, st, job));
      OnValueIsPrimitive(f, st, job);
      MergeStepGrows(f, st, job);
      GrownTrans(st.nodes, MergeStep(f, st, job).value.nodes, nodes');
      GrownReads(st.nodes[id], nodes'[id], on);
    }
  }

  /** A job that reports nothing found its node. */
  lemma QuietFound(f: Frame, st: Edit, job: Job<MergeClause>)
    requires MergeStep(f, st, job).Some? && MergeStep(f, st, job).value.changes == []
    ensures JobCandidate(f, st, job).Found?
    ensures !OnOf(f, st, job).JsBigInt?
  {
    if JobCandidate(f, st, job).NotFound? {
      CreateReports(st, job.row, job.item.create, JobProps(f, st, job).value, job.item.on.value.text);
    } else {
      var items := CollectionItems(ResolveCollection(st, st.bindings[job.row], job.item.create.into).value);
      FoundIsComparable(st.nodes, items, job.item.on.value, OnOf(f, st, job));
    }
  }

  lemma CreateReports(st: Edit, row: nat, c: CreateClause, props: seq<Property>, path: string)
    requires row < |st.bindings| && CreateNode(st, row, c, props, Merging, path).Some?
    ensures CreateNode(st, row, c, props, Merging, path).value.changes != []
  {
  }

  /** A node created by merging into its own alias never enters the collection the original binding names. */
  lemma OwnAliasNotThere(f: Frame, st: Edit, job: Job<MergeClause>, nodes': map<ObjectId, EncodedNode>)
    requires MergeStep(f, st, job).Some? && Healthy(f.root, st.nodes) && JobCandidate(f, st, job).NotFound?
    requires job.item.create.alias == job.item.create.into.alias
    requires var st' := MergeStep(f, st, job).value; Grown(st'.nodes, nodes') && OnlyFresh(st'.nodes, nodes')
    requires ResolveCollection(Edit(nodes', st.bindings, []), st.bindings[job.row], job.item.create.into).Some?
    ensures Ref(NextId(st.nodes)) !in
            CollectionItems(ResolveCollection(Edit(nodes', st.bindings, []), st.bindings[job.row],
                                              job.item.create.into).value)
  {
    var st', id := MergeStep(f, st, job).value, NextId(st.nodes);
    var b, into := st.bindings[job.row], job.item.create.into;
    OwnAliasKeepsOldNodes(f, st, job);
    CreateGrows(st, job.row, job.item.create, JobProps(f, st, job).value, Merging, job.item.on.value.text);
    StaysUnreferenced(st.nodes, st'.nodes, nodes', id);
    OwnAliasCollection(st, st', nodes', b, into);
  }

  /** A node that no old node refers to is referred to by no old and no later node. */
  lemma StaysUnreferenced(before: map<ObjectId, EncodedNode>, made: map<ObjectId, EncodedNode>,
                          nodes': map<ObjectId, EncodedNode>, id: ObjectId)
    requires ClosedNodes(before) && id !in before && id in made && OnlyFresh(made, nodes')
    requires forall k | k in before :: k in made && made[k] == before[k]
    ensures forall k | k in nodes' && (k in before || k !in made) :: !RefersTo(nodes'[k], id)
  {
    forall k | k in nodes' && (k in before || k !in made) ensures !RefersTo(nodes'[k], id) {
      assert k in made ==> (k in before && made[k] == before[k]);
      assert !Refers(before, k, id);
      assert !Refers(made, k, id);
      assert !Refers(nodes', k, id);
    }
  }

  /** The original target's collection is an old node or one added later. */
  lemma OwnAliasCollection(st: Edit, st': Edit, nodes': map<ObjectId, EncodedNode>, b: Binding, into: Target)
    requires ClosedNodes(st.nodes) && Grown(st'.nodes, nodes') && OnlyFresh(st'.nodes, nodes')
    requires forall k | k in st.nodes :: k in st'.nodes && st'.nodes[k] == st.nodes[k]
    requires into.path.Some? && into.alias in b && b[into.alias] in st.nodes
    requires ResolveCollection(Edit(nodes', st.bindings, []), b, into).Some?
    requires forall k | k in nodes' && (k in st.nodes || k !in st'.nodes) :: !RefersTo(nodes'[k], NextId(st.nodes))
    ensures Ref(NextId(st.nodes)) !in CollectionItems(ResolveCollection(Edit(nodes', st.bindings, []), b, into).value)
  {
    var p := b[into.alias];
    var existing := GetNodePath(nodes'[p], into.path.value);
    if existing.Some? {
      var k := existing.value.id;
      PathIsSlot(nodes'[p], into.path.value, k);
      assert Refers(nodes', p, k);
      if Refers(st'.nodes, p, k) {
        assert RefersTo(st.nodes[p], k);
        assert k in st.nodes;
      } else {
        assert k !in st'.nodes;
      }
    }
  }

  lemma PathIsSlot(node: EncodedNode, path: Path, k: ObjectId)
    requires GetNodePath(node, path) == Some(Ref(k))
    ensures RefersTo(node, k)
  {
    match node
    case ObjectNode(_, props) =>
      FoundProperty(props, path.text);
      var i :| 0 <= i < |props| && props[i] == Property(path.text, FindProperty(props, path.text).value);
      PropertySlotsMember(props, Ref(k));
    case MapNode(entries) =>
      EntrySlotsMember(entries, Ref(k));
      assert entries[path.shape.index].key == Ref(k) || entries[path.shape.index].value == Ref(k);
    case _ =>
  }

  /** What a repeating job needs. */
  ghost predicate CanRepeat(f: Frame, f2: Frame, st: Edit, job: Job<MergeClause>, nodes': map<ObjectId, EncodedNode>)
    requires MergeStep(f, st, job).Some?
  {
    OnAgrees(f, f2, st, job, nodes') && OwnAliasFinds(f, st, job) && !OnOf(f, st, job).JsBigInt?
  }

  lemma RepeatNeeds(f: Frame, f2: Frame, st: Edit, job: Job<MergeClause>, nodes': map<ObjectId, EncodedNode>)
    requires MergeStep(f, st, job).Some? && Healthy(f.root, st.nodes) && Repeats(f, f2, st, job, nodes')
    requires var st' := MergeStep(f, st, job).value; Grown(st'.nodes, nodes') && OnlyFresh(st'.nodes, nodes')
    ensures CanRepeat(f, f2, st, job, nodes')
  {
    var again := Edit(nodes', st.bindings, []);
    QuietFound(f2, again, job);
    GrownSelf(nodes');
    var id := BoundNode(f, st, job, nodes');
    var id2 := BoundNode(f2, again, job, nodes');
    assert Rebound(st.bindings, job.row, job.item.create.alias, id)[job.row][job.item.create.alias] == id;
    assert Rebound(st.bindings, job.row, job.item.create.alias, id2)[job.row][job.item.create.alias] == id2;
    if !OwnAliasFinds(f, st, job) {
      OwnAliasNotThere(f, st, job, nodes');
      var items := CollectionItems(ResolveCollection(again, st.bindings[job.row], job.item.create.into).value);
      FoundHasValue(nodes', items, job.item.on.value, OnOf(f2, again, job));
    }
  }

  /** A job repeats exactly when its ON value does, is no big integer, and an own-alias clause found its node. */
  lemma RepeatsIff(f: Frame, f2: Frame, st: Edit, job: Job<MergeClause>, nodes': map<ObjectId, EncodedNode>)
    requires MergeStep(f, st, job).Some? && Healthy(f.root, st.nodes)
    requires var st' := MergeStep(f, st, job).value; Grown(st'.nodes, nodes') && OnlyFresh(st'.nodes, nodes')
    ensures Repeats(f, f2, st, job, nodes') <==> CanRepeat(f, f2, st, job, nodes')
  {
    if Repeats(f, f2, st, job, nodes') {
      RepeatNeeds(f, f2, st, job, nodes');
    } else if OnAgrees(f, f2, st, job, nodes') && OwnAliasFinds(f, st, job) {
      JobAgain(f, f2, st, job, nodes');
    }
  }

  // The whole statement.

  /**
   * The fields of every job still give its ON value, and every clause that merges into its own alias found its node.
   */
  ghost predicate Repeatable(f: Frame, f2: Frame, st: Edit, jobs: seq<Job<MergeClause>>,
                             nodes': map<ObjectId, EncodedNode>)
    requires Fold(st, jobs, MergeSteps(f)).Some?
  {
    jobs != [] ==>
      var front, job := jobs[..|jobs| - 1], jobs[|jobs| - 1];
      var before := Fold(st, front, MergeSteps(f)).value;
      && Repeatable(f, f2, st, front, nodes')
      && OnAgrees(f, f2, before, job, nodes')
      && OwnAliasFinds(f, before, job)
  }

  /** No job compares with a big integer. */
  ghost predicate NoBigIntegers(f: Frame, st: Edit, jobs: seq<Job<MergeClause>>)
    requires Fold(st, jobs, MergeSteps(f)).Some?
  {
    jobs != [] ==>
      var front, job := jobs[..|jobs| - 1], jobs[|jobs| - 1];
      NoBigIntegers(f, st, front) && !OnOf(f, Fold(st, front, MergeSteps(f)).value, job).JsBigInt?
  }

  /** Job by job, the second run binds what the first one bound and reports nothing. */
  ghost predicate RunsAlike(f: Frame, f2: Frame, st: Edit, jobs: seq<Job<MergeClause>>,
                            nodes': map<ObjectId, EncodedNode>)
    requires Fold(st, jobs, MergeSteps(f)).Some?
  {
    && Fold(Edit(nodes', st.bindings, []), jobs, MergeSteps(f2)) ==
       Some(Edit(nodes', Fold(st, jobs, MergeSteps(f)).value.bindings, []))
    && (jobs != [] ==> RunsAlike(f, f2, st, jobs[..|jobs| - 1], nodes'))
  }

  ghost function HealthyWith(root: EncodedValue): Edit -> bool {
    (st: Edit) => Healthy(root, st.nodes)
  }

  /** MERGE keeps the graph healthy, whatever has been reported before. */
  lemma JobsKeepHealthy(f: Frame, st: Edit, jobs: seq<Job<MergeClause>>)
    requires Healthy(f.root, st.nodes)
    ensures Fold(st, jobs, MergeSteps(f)).Some? ==> Healthy(f.root, Fold(st, jobs, MergeSteps(f)).value.nodes)
  {
    forall s, job | HealthyWith(f.root)(s) && MergeSteps(f)(s, job).Some?
      ensures HealthyWith(f.root)(MergeSteps(f)(s, job).value) {
      var base: map<ObjectId, EncodedNode> := map id | id in s.nodes && id !in ChangedIds(s.changes) :: s.nodes[id];
      MergeStepIsGood(f, base, s, job);
    }
    FoldKeeps(st, jobs, MergeSteps(f), HealthyWith(f.root));
  }

  /** What a prefix of the jobs keeps towards the final graph. */
  lemma BeforeLast(f: Frame, st: Edit, jobs: seq<Job<MergeClause>>, nodes': map<ObjectId, EncodedNode>)
    requires jobs != [] && Fold(st, jobs, MergeSteps(f)).Some? && Healthy(f.root, st.nodes)
    requires var last := Fold(st, jobs, MergeSteps(f)).value; Grown(last.nodes, nodes') && OnlyFresh(last.nodes, nodes')
    ensures var before := Fold(st, jobs[..|jobs| - 1], MergeSteps(f)).value;
            Healthy(f.root, before.nodes) && Grown(before.nodes, nodes') && OnlyFresh(before.nodes, nodes')
  {
    var front, job := jobs[..|jobs| - 1], jobs[|jobs| - 1];
    var before := Fold(st, front, MergeSteps(f)).value;
    MergeStepGrows(f, before, job);
    GrownTrans(before.nodes, MergeStep(f, before, job).value.nodes, nodes');
    StepFresh(f, before, job);
    FreshTrans(before.nodes, MergeStep(f, before, job).value.nodes, nodes');
    JobsKeepHealthy(f, st, front);
  }

  lemma {:induction false} JobsAgain(f: Frame, f2: Frame, st: Edit, jobs: seq<Job<MergeClause>>,
                                     nodes': map<ObjectId, EncodedNode>)
    requires Fold(st, jobs, MergeSteps(f)).Some? && Healthy(f.root, st.nodes)
    requires var last := Fold(st, jobs, MergeSteps(f)).value; Grown(last.nodes, nodes') && OnlyFresh(last.nodes, nodes')
    requires Repeatable(f, f2, st, jobs, nodes')
    ensures Fold(Edit(nodes', st.bindings, []), jobs, MergeSteps(f2)) ==
            if NoBigIntegers(f, st, jobs) then Some(Edit(nodes', Fold(st, jobs, MergeSteps(f)).value.bindings, []))
               else None
    decreases |jobs|
  {
    if jobs != [] {
      var front, job := jobs[..|jobs| - 1], jobs[|jobs| - 1];
      var before := Fold(st, front, MergeSteps(f)).value;
      BeforeLast(f, st, jobs, nodes');
      JobsAgain(f, f2, st, front, nodes');
      JobAgain(f, f2, before, job, nodes');
    }
  }

  lemma {:induction false} JobsAlikeIff(f: Frame, f2: Frame, st: Edit, jobs: seq<Job<MergeClause>>,
                                        nodes': map<ObjectId, EncodedNode>)
    requires Fold(st, jobs, MergeSteps(f)).Some? && Healthy(f.root, st.nodes)
    requires var last := Fold(st, jobs, MergeSteps(f)).value; Grown(last.nodes, nodes') && OnlyFresh(last.nodes, nodes')
    ensures RunsAlike(f, f2, st, jobs, nodes') <==> Repeatable(f, f2, st, jobs, nodes') && NoBigIntegers(f, st, jobs)
    decreases |jobs|
  {
    if jobs != [] {
      var front, job := jobs[..|jobs| - 1], jobs[|jobs| - 1];
      var before := Fold(st, front, MergeSteps(f)).value;
      BeforeLast(f, st, jobs, nodes');
      JobsAlikeIff(f, f2, st, front, nodes');
      RepeatsIff(f, f2, before, job, nodes');
    }
  }

  /**
   * A MERGE run again over the same bindings binds the same nodes and reports nothing, job by job, if and only if the
   * fields of every job still give its ON value, none of these is a big integer, and every clause that merges into its
   * own alias found its node.
   */
  lemma MergeRepeatsIff(f: Frame, f2: Frame, nodes: map<ObjectId, EncodedNode>, bindings: seq<Binding>,
                        items: seq<MergeClause>)
    requires Healthy(f.root, nodes) && MergeAll(f, Edit(nodes, bindings, []), items).Some?
    ensures var st, jobs := Edit(nodes, bindings, []), Jobs(|bindings|, items);
            var nodes' := MergeAll(f, st, items).value.nodes;
            RunsAlike(f, f2, st, jobs, nodes') <==> Repeatable(f, f2, st, jobs, nodes') && NoBigIntegers(f, st, jobs)
  {
    var st := Edit(nodes, bindings, []);
    GrownSelf(MergeAll(f, st, items).value.nodes);
    JobsAlikeIff(f, f2, st, Jobs(|bindings|, items), MergeAll(f, st, items).value.nodes);
  }

  // Where no two clauses bind the same alias, the end of the second run tells.

  ghost predicate DistinctAliases(items: seq<MergeClause>) {
    forall i, j | 0 <= i < j < |items| :: items[i].create.alias != items[j].create.alias
  }

  predicate SameSlot(a: Job<MergeClause>, b: Job<MergeClause>) {
    a.row == b.row && a.item.create.alias == b.item.create.alias
  }

  ghost predicate OnceEach(jobs: seq<Job<MergeClause>>) {
    forall i, j | 0 <= i < j < |jobs| :: !SameSlot(jobs[i], jobs[j])
  }

  lemma {:induction false} RowJobAt<I>(row: nat, items: seq<I>, k: nat)
    requires k < |items|
    ensures |RowJobs(row, items)| == |items| && RowJobs(row, items)[k] == Job(row, items[k])
    decreases |items|
  {
    if k < |items| - 1 {
      RowJobAt(row, items[..|items| - 1], k);
    } else if |items| > 1 {
      RowJobAt(row, items[..|items| - 1], 0);
    }
  }

  lemma RowOnce(row: nat, items: seq<MergeClause>)
    requires DistinctAliases(items)
    ensures OnceEach(RowJobs(row, items)) && forall job | job in RowJobs(row, items) :: job.row == row
  {
    if items != [] {
      RowJobAt(row, items, 0);
    }
    forall k | 0 <= k < |items| ensures |RowJobs(row, items)| == |items| &&
           RowJobs(row, items)[k] == Job(row, items[k]) {
      RowJobAt(row, items, k);
    }
  }

  lemma OnceConcat(before: seq<Job<MergeClause>>, last: seq<Job<MergeClause>>, row: nat)
    requires OnceEach(before) && OnceEach(last)
    requires (forall job | job in before :: job.row < row) && forall job | job in last :: job.row == row
    ensures OnceEach(before + last)
  {
    var all := before + last;
    forall i, j | 0 <= i < j < |all| ensures !SameSlot(all[i], all[j]) {
      if i < |before| <= j {
        assert all[i] in before && all[j] in last;
      } else if |before| <= i {
        assert all[i] == last[i - |before|] && all[j] == last[j - |before|];
      }
    }
  }

  lemma {:induction false} JobsOnce(rows: nat, items: seq<MergeClause>)
    requires DistinctAliases(items)
    ensures OnceEach(Jobs(rows, items)) && forall job | job in Jobs(rows, items) :: job.row < rows
  {
    if rows > 0 {
      JobsOnce(rows - 1, items);
      RowOnce(rows - 1, items);
      OnceConcat(Jobs(rows - 1, items), RowJobs(rows - 1, items), rows - 1);
    }
  }

  /** A slot no job writes keeps what it held. */
  lemma {:induction false} SlotKept(f: Frame, st: Edit, jobs: seq<Job<MergeClause>>, job: Job<MergeClause>)
    requires Fold(st, jobs, MergeSteps(f)).Some? && forall j | j in jobs :: !SameSlot(j, job)
    ensures var now := Fold(st, jobs, MergeSteps(f)).value; var alias := job.item.create.alias;
            && |now.bindings| == |st.bindings|
            && (job.row < |st.bindings| ==>
                  && (alias in now.bindings[job.row] <==> alias in st.bindings[job.row])
                  && (alias in st.bindings[job.row] ==> now.bindings[job.row][alias] == st.bindings[job.row][alias]))
    decreases |jobs|
  {
    if jobs != [] {
      var front, last := jobs[..|jobs| - 1], jobs[|jobs| - 1];
      assert last in jobs && forall j | j in front :: j in jobs;
      SlotKept(f, st, front, job);
      var before := Fold(st, front, MergeSteps(f)).value;
      GrownSelf(MergeStep(f, before, last).value.nodes);
      var _ := BoundNode(f, before, last, MergeStep(f, before, last).value.nodes);
    }
  }

  /** A job only adds reports, and without one it leaves the nodes alone. */
  lemma StepReports(f: Frame, st: Edit, job: Job<MergeClause>)
    requires MergeStep(f, st, job).Some?
    ensures var next := MergeStep(f, st, job).value;
            |next.changes| >= |st.changes| && (|next.changes| == |st.changes| ==> next.nodes == st.nodes)
  {
  }

  /** Two rows of bindings that a job makes equal were equal, if they agreed on the slot it writes. */
  lemma SameBefore(a: seq<Binding>, b: seq<Binding>, row: nat, alias: string, x: ObjectId, y: ObjectId)
    requires row < |a| && |a| == |b| && Rebound(a, row, alias, x) == Rebound(b, row, alias, y)
    requires (alias in a[row] <==> alias in b[row]) && (alias in a[row] ==> a[row][alias] == b[row][alias])
    ensures a == b
  {
    forall i | 0 <= i < |a| ensures a[i] == b[i] {
      assert Rebound(a, row, alias, x)[i] == Rebound(b, row, alias, y)[i];
      if i == row {
        var a2: Binding, b2: Binding := a[row][alias := x], b[row][alias := y];
        assert a2 == b2;
        assert a[row] - {alias} == a2 - {alias} && b[row] - {alias} == b2 - {alias};
        forall k | k in a[row] || k in b[row]
          ensures k in a[row] && k in b[row] && a[row][k] == b[row][k] {
          assert k in a2 && k in b2 && a2[k] == b2[k];
        }
      }
    }
  }

  lemma {:induction false} WholeIsStepwise(f: Frame, f2: Frame, st: Edit, jobs: seq<Job<MergeClause>>,
                                           nodes': map<ObjectId, EncodedNode>)
    requires Fold(st, jobs, MergeSteps(f)).Some? && OnceEach(jobs)
    requires Fold(Edit(nodes', st.bindings, []), jobs, MergeSteps(f2)) ==
             Some(Edit(nodes', Fold(st, jobs, MergeSteps(f)).value.bindings, []))
    ensures RunsAlike(f, f2, st, jobs, nodes')
    decreases |jobs|
  {
    if jobs != [] {
      var front, job := jobs[..|jobs| - 1], jobs[|jobs| - 1];
      var again := Edit(nodes', st.bindings, []);
      var before, before2 := Fold(st, front, MergeSteps(f)).value, Fold(again, front, MergeSteps(f2)).value;
      forall j | j in front ensures !SameSlot(j, job) {
        var i :| 0 <= i < |front| && front[i] == j;
        assert jobs[i] == j;
      }
      SlotKept(f, st, front, job);
      SlotKept(f2, again, front, job);
      StepReports(f2, before2, job);
      assert before2.nodes == nodes' && before2.changes == [];
      GrownSelf(nodes');
      GrownSelf(MergeStep(f, before, job).value.nodes);
      var id := BoundNode(f, before, job, MergeStep(f, before, job).value.nodes);
      var id2 := BoundNode(f2, before2, job, nodes');
      SameBefore(before.bindings, before2.bindings, job.row, job.item.create.alias, id, id2);
      WholeIsStepwise(f, f2, st, front, nodes');
    }
  }

  /** For clauses with different aliases: the second run as a whole is idempotent under exactly the same condition. */
  lemma WholeRepeatsIff(f: Frame, f2: Frame, nodes: map<ObjectId, EncodedNode>, bindings: seq<Binding>,
                        items: seq<MergeClause>)
    requires Healthy(f.root, nodes) && MergeAll(f, Edit(nodes, bindings, []), items).Some? && DistinctAliases(items)
    ensures var st, jobs := Edit(nodes, bindings, []), Jobs(|bindings|, items);
            var first := MergeAll(f, st, items).value;
            MergeAll(f2, Edit(first.nodes, bindings, []), items) == Some(Edit(first.nodes, first.bindings, [])) <==>
            Repeatable(f, f2, st, jobs, first.nodes) && NoBigIntegers(f, st, jobs)
  {
    var st, jobs := Edit(nodes, bindings, []), Jobs(|bindings|, items);
    var first := MergeAll(f, st, items).value;
    MergeRepeatsIff(f, f2, nodes, bindings, items);
    JobsOnce(|bindings|, items);
    if MergeAll(f2, Edit(first.nodes, bindings, []), items) == Some(Edit(first.nodes, first.bindings, [])) {
      WholeIsStepwise(f, f2, st, jobs, first.nodes);
    }
  }

  /** Where the fields still give the ON values, the second run succeeds as a whole, or a big integer fails it. */
  lemma MergeTwice(f: Frame, f2: Frame, nodes: map<ObjectId, EncodedNode>, bindings: seq<Binding>,
                   items: seq<MergeClause>)
    requires Healthy(f.root, nodes) && MergeAll(f, Edit(nodes, bindings, []), items).Some?
    requires Repeatable(f, f2, Edit(nodes, bindings, []), Jobs(|bindings|, items),
                        MergeAll(f, Edit(nodes, bindings, []), items).value.nodes)
    ensures var first := MergeAll(f, Edit(nodes, bindings, []), items).value;
            MergeAll(f2, Edit(first.nodes, bindings, []), items) ==
            if NoBigIntegers(f, Edit(nodes, bindings, []), Jobs(|bindings|, items)) then
               Some(Edit(first.nodes, first.bindings, [])) else None
  {
    var st := Edit(nodes, bindings, []);
    var first := MergeAll(f, st, items).value;
    GrownSelf(first.nodes);
    JobsAgain(f, f2, st, Jobs(|bindings|, items), first.nodes);
  }

  lemma OwnAliasKeepsOldNodes(f: Frame, st: Edit, job: Job<MergeClause>)
    requires MergeStep(f, st, job).Some? && JobCandidate(f, st, job).NotFound?
    requires job.item.create.alias == job.item.create.into.alias
    ensures forall id | id in st.nodes ::
              id in MergeStep(f, st, job).value.nodes && MergeStep(f, st, job).value.nodes[id] == st.nodes[id]
  {
    var c, props, id := job.item.create, JobProps(f, st, job).value, NextId(st.nodes);
    FieldsHoldNoReference(At(f, st), st.bindings[job.row], c.fields);
    if c.into.path.Some? {
      FoundProperty(props, c.into.path.value.text);
    }
  }

  lemma {:induction false} SameCandidate(nodes: map<ObjectId, EncodedNode>, nodes': map<ObjectId, EncodedNode>,
                                         items: seq<EncodedValue>,
                                         on: Path, expected: JsValue)
    requires forall id | id in nodes :: id in nodes' && nodes'[id] == nodes[id]
    requires forall id | Ref(id) in items :: id in nodes
    ensures FindCandidate(nodes', items, on, expected) == FindCandidate(nodes, items, on, expected)
    decreases |items|
  {
    if items != [] {
      assert items[0] in items && forall id | Ref(id) in items[1..] :: Ref(id) in items;
      SameCandidate(nodes, nodes', items[1..], on, expected);
    }
  }

  /** A clause that merges into its own alias attaches the new node to itself, so a second run creates another one. */
  lemma OwnAliasCreatesAgain(f: Frame, f2: Frame, st: Edit, job: Job<MergeClause>)
    requires MergeStep(f, st, job).Some? && Healthy(f.root, st.nodes) && JobCandidate(f, st, job).NotFound?
    requires job.item.create.alias == job.item.create.into.alias
    requires JobProps(f2, Edit(MergeStep(f, st, job).value.nodes, st.bindings, []), job) == JobProps(f, st, job)
    ensures var again := MergeStep(f2, Edit(MergeStep(f, st, job).value.nodes, st.bindings, []), job);
            again.Some? && again.value.changes != []
  {
    var c, on, b := job.item.create, job.item.on.value, st.bindings[job.row];
    var props, st' := JobProps(f, st, job).value, MergeStep(f, st, job).value;
    OwnAliasKeepsOldNodes(f, st, job);
    var items := CollectionItems(ResolveCollection(st, b, c.into).value);
    CollectionIsClosed(f.root, st, b, c.into);
    SameCandidate(st.nodes, st'.nodes, items, on, OnOf(f, st, job));
    OnValueIsPrimitive(f, st, job);
    FieldsHoldNoReference(At(f, st), b, c.fields);
    CreatesUnfound(f, st, job, props);
    var again := Edit(st'.nodes, st.bindings, []);
    OwnAliasAttaches(st, again, job.row, c, props, on.text);
    CreatesUnfound(f2, again, job, props);
    CreateReports(again, job.row, c, props, on.text);
  }

  lemma CreatesUnfound(f: Frame, st: Edit, job: Job<MergeClause>, props: seq<Property>)
    requires job.row < |st.bindings| && job.item.on.Some? && JobProps(f, st, job) == Some(props)
    requires var into, on := job.item.create.into, job.item.on.value;
             var collection := ResolveCollection(st, st.bindings[job.row], into);
             && collection.Some? && !OnValue(props, on).JsUndefined?
             && FindCandidate(st.nodes, CollectionItems(collection.value), on, OnValue(props, on)).NotFound?
    ensures MergeStep(f, st, job) == CreateNode(st, job.row, job.item.create, props, Merging, job.item.on.value.text)
  {
  }

  /** Whether a new node can be attached to itself depends on its properties only. */
  lemma OwnAliasAttaches(st: Edit, st2: Edit, row: nat, c: CreateClause, props: seq<Property>, path: string)
    requires row < |st.bindings| && row < |st2.bindings| && c.alias == c.into.alias
    requires CreateNode(st, row, c, props, Merging, path).Some? && forall p | p in props :: !p.value.Ref?
    ensures CreateNode(st2, row, c, props, Merging, path).Some?
  {
    if c.into.path.Some? {
      FoundProperty(props, c.into.path.value.text);
    }
  }

  /** After a job its alias denotes a node with the ON value. */
  lemma MergeBinds(f: Frame, st: Edit, job: Job<MergeClause>)
    requires MergeStep(f, st, job).Some?
    ensures var st' := MergeStep(f, st, job).value;
            && job.row < |st'.bindings| && job.item.create.alias in st'.bindings[job.row]
            && var id := st'.bindings[job.row][job.item.create.alias];
               id in st'.nodes && JsonForm(PathToJs(GetNodePath(st'.nodes[id], job.item.on.value))) ==
                                  JsonForm(OnOf(f, st, job))
  {
    GrownSelf(MergeStep(f, st, job).value.nodes);
    var id := BoundNode(f, st, job, MergeStep(f, st, job).value.nodes);
    assert Rebound(st.bindings, job.row, job.item.create.alias, id)[job.row][job.item.create.alias] == id;
  }

  lemma {:induction false} FoundHasValue(nodes: map<ObjectId, EncodedNode>, items: seq<EncodedValue>, on: Path,
                                         expected: JsValue)
    requires FindCandidate(nodes, items, on, expected).Found?
    ensures var id := FindCandidate(nodes, items, on, expected).id;
            Ref(id) in items && id in nodes && JsonForm(PathToJs(GetNodePath(nodes[id], on))) == JsonForm(expected)
    decreases |items|
  {
    if items[0].Ref? && items[0].id in nodes && SameMergeValue(PathToJs(GetNodePath(nodes[items[0].id], on)),
                                                               expected) == Some(true) {
    } else {
      FoundHasValue(nodes, items[1..], on, expected);
    }
  }
}
