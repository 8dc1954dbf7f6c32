/** What an update statement does to the encoded graph: SET, REMOVE, DELETE, CREATE and MERGE, in that order. */
module GvqlMutations {
  import opened EncodedGraph
  import opened StorageDisk
  import opened GvqlValues
  import opened GvqlExpressions
  import opened GvqlIndex
  import opened GvqlNodeEdits

  /** `alias` or `alias.path`. */
  datatype Target = Target(alias: string, path: Option<Path>)

  datatype SetClause = SetClause(target: Target, value: Expression)

  datatype Field = Field(name: string, value: Expression)

  datatype CreateClause = CreateClause(alias: string, typeName: Option<string>, fields: seq<Field>, into: Target)

  datatype MergeClause = MergeClause(create: CreateClause, on: Option<Path>)

  datatype Update = Update(
    assign: seq<SetClause>, remove: seq<Target>, delete: seq<string>, create: seq<CreateClause>,
        merge: seq<MergeClause>)

  datatype Kind = Setting | Removing | Detaching | Deleting | Creating | Merging | Attaching

  datatype Change = Change(id: ObjectId, alias: string, path: string, kind: Kind, before: JsValue, after: JsValue)

  /** What a statement edits: the nodes, the row bindings, and the list of changes it reports. */
  datatype Edit = Edit(nodes: map<ObjectId, EncodedNode>, bindings: seq<Binding>, changes: seq<Change>)

  /** What stays fixed: the surroundings of expressions, the incoming edges from before the statement, the root. */
  datatype Frame = Frame(cx: Context, incoming: map<ObjectId, seq<Edge>>, root: EncodedValue)

  function At(f: Frame, st: Edit): Context {
    f.cx.(nodes := st.nodes)
  }

  /** One clause applied to one row. */
  datatype Job<+I> = Job(row: nat, item: I)

  function RowJobs<I>(row: nat, items: seq<I>): seq<Job<I>> {
    if items == [] then [] else RowJobs(row, items[..|items| - 1]) + [Job(row, items[|items| - 1])]
  }

  /** Row by row, clause by clause. */
  function Jobs<I>(rows: nat, items: seq<I>): seq<Job<I>> {
    if rows == 0 then [] else Jobs(rows - 1, items) + RowJobs(rows - 1, items)
  }

  /** All jobs in order; `None` is a thrown error. */
  ghost function Fold<I>(st: Edit, jobs: seq<Job<I>>, step: (Edit, Job<I>) -> Option<Edit>): Option<Edit> {
    if jobs == [] then Some(st)
    else
      var before := Fold(st, jobs[..|jobs| - 1], step);
      if before.None? then None else step(before.value, jobs[|jobs| - 1])
  }

  function Edited(st: Edit, id: ObjectId, node: EncodedNode, change: Change): Edit {
    st.(nodes := st.nodes[id := node], changes := st.changes + [change])
  }

  /** The node an alias of the row denotes, if it is still there. */
  function Denoted(st: Edit, row: nat, alias: string): Option<ObjectId> {
    if row < |st.bindings| && alias in st.bindings[row] && st.bindings[row][alias] in st.nodes then
       Some(st.bindings[row][alias]) else None
  }

  // SET and REMOVE.

  function SetStep(f: Frame, st: Edit, job: Job<SetClause>): Option<Edit> {
    var target, id := job.item.target, Denoted(st, job.row, job.item.target.alias);
    if id.None? then Some(st)
    else
      var value := Evaluate(At(f, st), st.bindings[job.row], job.item.value);
      if value.None? || JsToEncoded(value.value).None? || target.path.None? then None
      else
        var node, next, path := st.nodes[id.value], JsToEncoded(value.value).value, target.path.value;
        var written := SetNodePath(node, path, next);
        if written.None? then None
        else Some(Edited(st, id.value, written.value,
                         Change(id.value, target.alias, path.text, Setting, PathToJs(GetNodePath(node, path)),
                                EncodedToJs(next))))
  }

  function RemoveStep(st: Edit, job: Job<Target>): Option<Edit> {
    var target, id := job.item, Denoted(st, job.row, job.item.alias);
    if id.None? then Some(st)
    else
      var node := st.nodes[id.value];
      if !node.ObjectNode? || target.path.None? then None
      else
        var name := target.path.value.text;
        if FindProperty(node.props, name).None? then Some(st)
        else Some(Edited(st, id.value, node.(props := RemoveProperty(node.props, name)),
                         Change(id.value, target.alias, name, Removing, PathToJs(FindProperty(node.props, name)),
                                JsUndefined)))
  }

  // DELETE.

  datatype Doomed = Doomed(id: ObjectId, alias: string)

  function DoomedIds(doomed: seq<Doomed>): set<ObjectId> {
    set d | d in doomed :: d.id
  }

  /** The nodes to delete, each once, with the alias that named it first. */
  function DoomedBy(st: Edit, jobs: seq<Job<string>>): seq<Doomed> {
    if jobs == [] then []
    else
      var before, job := DoomedBy(st, jobs[..|jobs| - 1]), jobs[|jobs| - 1];
      var id := Denoted(st, job.row, job.item);
      if id.None? || id.value in DoomedIds(before) then before else before + [Doomed(id.value, job.item)]
  }

  /** The edges into one doomed node that have to be detached. */
  function DetachChanges(nodes: map<ObjectId, EncodedNode>, target: ObjectId, edges: seq<Edge>,
                         doomed: set<ObjectId>): seq<Change> {
    if edges == [] then []
    else
      var last := edges[|edges| - 1];
      DetachChanges(nodes, target, edges[..|edges| - 1], doomed) +
      (if last.from in doomed || last.from !in nodes then []
       else [Change(last.from, "$parent", last.path, Detaching, JsReference(target), JsUndefined)])
  }

  function AllDetachChanges(f: Frame, nodes: map<ObjectId, EncodedNode>, doomed: seq<Doomed>,
                            ids: set<ObjectId>): seq<Change> {
    if doomed == [] then []
    else
      var last := doomed[|doomed| - 1];
      AllDetachChanges(f, nodes, doomed[..|doomed| - 1], ids) +
      DetachChanges(nodes, last.id, Bucket(f.incoming, last.id), ids)
  }

  function DeleteChanges(doomed: seq<Doomed>): seq<Change> {
    if doomed == [] then []
    else
      var last := doomed[|doomed| - 1];
      DeleteChanges(doomed[..|doomed| - 1]) +
      [Change(last.id, last.alias, "", Deleting, JsSummary(last.id), JsUndefined)]
  }

  function ChangedIds(changes: seq<Change>): set<ObjectId> {
    set c | c in changes :: c.id
  }

  function Detached(nodes: map<ObjectId, EncodedNode>, parents: set<ObjectId>,
                    doomed: set<ObjectId>): map<ObjectId, EncodedNode> {
    map id | id in nodes && id !in doomed :: if id in parents then Detach(nodes[id], doomed) else nodes[id]
  }

  /** `applyDelete`; deleting the root is the error. */
  function DeleteAll(f: Frame, st: Edit, delete: seq<string>): Option<Edit> {
    if delete == [] then Some(st)
    else
      var doomed := DoomedBy(st, Jobs(|st.bindings|, delete));
      var ids := DoomedIds(doomed);
      if f.root.Ref? && f.root.id in ids then None
      else
        var detaching := AllDetachChanges(f, st.nodes, doomed, ids);
        Some(st.(nodes := Detached(st.nodes, ChangedIds(detaching), ids),
                 changes := st.changes + detaching + DeleteChanges(doomed)))
  }

  // CREATE and MERGE.

  const MAX_SAFE_INTEGER: nat := 9007199254740991

  function SafeIds(nodes: map<ObjectId, EncodedNode>): set<nat> {
    set id | id in nodes && id <= MAX_SAFE_INTEGER
  }

  function IdsFrom(nodes: map<ObjectId, EncodedNode>, least: nat): set<nat> {
    set id | id in nodes && id >= least
  }

  function FirstFree(nodes: map<ObjectId, EncodedNode>, candidate: nat): (id: nat)
    ensures id !in nodes && id >= candidate && forall k | candidate <= k < id :: k in nodes
    decreases IdsFrom(nodes, candidate)
  {
    if candidate in nodes then
      assert candidate in IdsFrom(nodes, candidate) && candidate !in IdsFrom(nodes, candidate + 1);
      FirstFree(nodes, candidate + 1)
    else candidate
  }

  /** `nextObjectId`. */
  ghost function NextId(nodes: map<ObjectId, EncodedNode>): (id: ObjectId)
    ensures id !in nodes && forall k | k in nodes && k <= MAX_SAFE_INTEGER :: k < id
  {
    assert forall k | k in nodes && k <= MAX_SAFE_INTEGER :: k in SafeIds(nodes);
    FirstFree(nodes, Highest(SafeIds(nodes)) + 1)
  }

  function EvaluateFields(cx: Context, b: Binding, fields: seq<Field>): Option<seq<Property>> {
    if fields == [] then Some([])
    else
      var last := fields[|fields| - 1];
      var before, value := EvaluateFields(cx, b, fields[..|fields| - 1]), Evaluate(cx, b, last.value);
      if before.None? || value.None? || JsToEncoded(value.value).None? then None
      else Some(before.value + [Property(last.name, JsToEncoded(value.value).value)])
  }

  /** `attachCreatedObject`: appends to a collection, or starts one. */
  ghost function AttachCreated(st: Edit, b: Binding, into: Target, id: ObjectId): Option<Edit> {
    if into.alias !in b || b[into.alias] !in st.nodes then None
    else
      var parent := b[into.alias];
      if into.path.None? then AppendTo(st, parent, id, into.alias, "")
      else
        var existing := GetNodePath(st.nodes[parent], into.path.value);
        if existing.Some? && existing.value.Ref? then
           AppendTo(st, existing.value.id, id, into.alias, into.path.value.text)
        else if existing.None? && st.nodes[parent].ObjectNode? then Some(StartCollection(st, parent, into, id))
        else None
  }

  function AppendTo(st: Edit, collection: ObjectId, id: ObjectId, alias: string, path: string): Option<Edit> {
    if collection !in st.nodes || AppendReference(st.nodes[collection], id).None? then None
    else Some(Edited(st, collection, AppendReference(st.nodes[collection], id).value,
                     Change(collection, alias, path, Attaching, JsUndefined, JsReference(id))))
  }

  ghost function StartCollection(st: Edit, parent: ObjectId, into: Target, id: ObjectId): Edit
    requires parent in st.nodes && st.nodes[parent].ObjectNode? && into.path.Some?
  {
    var collection, node := NextId(st.nodes), st.nodes[parent];
    Edited(Edited(st, collection, ArrayNode([Ref(id)]),
                  Change(collection, "$collection", "", Creating, JsUndefined, JsArray([]))),
           parent, node.(props := SetProperty(node.props, into.path.value.text, Ref(collection))),
           Change(parent, into.alias, into.path.value.text, Attaching, JsUndefined, JsReference(collection)))
  }

  /** A new object, bound in its row and attached. */
  ghost function CreateNode(st: Edit, row: nat, c: CreateClause, props: seq<Property>, kind: Kind,
                            path: string): Option<Edit>
    requires row < |st.bindings|
  {
    var id := NextId(st.nodes);
    var b: Binding := st.bindings[row][c.alias := id];
    var made := Edited(st, id, ObjectNode(c.typeName, props),
                       Change(id, c.alias, path, kind, JsUndefined, JsSummary(id)));
    AttachCreated(made.(bindings := st.bindings[row := b]), b, c.into, id)
  }

  ghost function CreateStep(f: Frame, st: Edit, job: Job<CreateClause>): Option<Edit> {
    if job.row >= |st.bindings| then None
    else
      var props := EvaluateFields(At(f, st), st.bindings[job.row], job.item.fields);
      if props.None? then None else CreateNode(st, job.row, job.item, props.value, Creating, "")
  }

  /** `resolveCollection`: a missing property counts as an empty array. */
  function ResolveCollection(st: Edit, b: Binding, into: Target): Option<EncodedNode> {
    if into.alias !in b || b[into.alias] !in st.nodes then None
    else
      var parent := st.nodes[b[into.alias]];
      if into.path.None? then Some(parent)
      else
        var existing := GetNodePath(parent, into.path.value);
        if existing.None? then Some(ArrayNode([]))
        else if existing.value.Ref? && existing.value.id in st.nodes then Some(st.nodes[existing.value.id])
        else None
  }

  /** What JSON text distinguishes. */
  function JsonForm(v: JsValue): JsValue {
    if v.JsSpecial? then (if v.special.NegativeZero? then JsNumber(0.0) else JsNull) else v
  }

  /** `sameMergeValue`; `None` is the error for big integers. */
  function SameMergeValue(a: JsValue, b: JsValue): Option<bool> {
    if a.JsBigInt? || b.JsBigInt? then None else Some(JsonForm(a) == JsonForm(b))
  }

  datatype Search = Failed | NotFound | Found(id: ObjectId)

  /** The first item that refers to a node with the value. */
  function FindCandidate(nodes: map<ObjectId, EncodedNode>, items: seq<EncodedValue>, on: Path,
                         expected: JsValue): Search {
    if items == [] then NotFound
    else
      var item := items[0];
      if !item.Ref? || item.id !in nodes then FindCandidate(nodes, items[1..], on, expected)
      else
        var same := SameMergeValue(PathToJs(GetNodePath(nodes[item.id], on)), expected);
        if same.None? then Failed else if same.value then Found(item.id)
           else FindCandidate(nodes, items[1..], on, expected)
  }

  function CollectionItems(node: EncodedNode): seq<EncodedValue> {
    if node.ArrayNode? || node.SetNode? then node.items else []
  }

  ghost function MergeStep(f: Frame, st: Edit, job: Job<MergeClause>): Option<Edit> {
    if job.row >= |st.bindings| || job.item.on.None? then None
    else
      var b, c, on := st.bindings[job.row], job.item.create, job.item.on.value;
      var props := EvaluateFields(At(f, st), b, c.fields);
      if props.None? then None
      else
        var expected, collection := PathToJs(FindProperty(props.value, on.text)), ResolveCollection(st, b, c.into);
        if expected.JsUndefined? || collection.None? then None
        else
          match FindCandidate(st.nodes, CollectionItems(collection.value), on, expected)
          case Failed => None
          case Found(id) => Some(st.(bindings := st.bindings[job.row := b[c.alias := id]]))
          case NotFound => CreateNode(st, job.row, c, props.value, Merging, on.text)
  }

  // The whole statement.

  ghost function SetSteps(f: Frame): (Edit, Job<SetClause>) -> Option<Edit> {
    (st: Edit, job: Job<SetClause>) => SetStep(f, st, job)
  }

  ghost function RemoveSteps(): (Edit, Job<Target>) -> Option<Edit> {
    (st: Edit, job: Job<Target>) => RemoveStep(st, job)
  }

  ghost function CreateSteps(f: Frame): (Edit, Job<CreateClause>) -> Option<Edit> {
    (st: Edit, job: Job<CreateClause>) => CreateStep(f, st, job)
  }

  ghost function MergeSteps(f: Frame): (Edit, Job<MergeClause>) -> Option<Edit> {
    (st: Edit, job: Job<MergeClause>) => MergeStep(f, st, job)
  }

  ghost function SetAll(f: Frame, st: Edit, items: seq<SetClause>): Option<Edit> {
    Fold(st, Jobs(|st.bindings|, items), SetSteps(f))
  }

  ghost function RemoveAll(st: Edit, items: seq<Target>): Option<Edit> {
    Fold(st, Jobs(|st.bindings|, items), RemoveSteps())
  }

  ghost function CreateAll(f: Frame, st: Edit, items: seq<CreateClause>): Option<Edit> {
    Fold(st, Jobs(|st.bindings|, items), CreateSteps(f))
  }

  ghost function MergeAll(f: Frame, st: Edit, items: seq<MergeClause>): Option<Edit> {
    Fold(st, Jobs(|st.bindings|, items), MergeSteps(f))
  }

  /** `applyGvqlMutations`. */
  ghost function UpdateAll(f: Frame, st: Edit, u: Update): Option<Edit> {
    var afterSet := SetAll(f, st, u.assign);
    if afterSet.None? then None
    else
      var afterRemove := RemoveAll(afterSet.value, u.remove);
      if afterRemove.None? then None
      else
        var afterDelete := DeleteAll(f, afterRemove.value, u.delete);
        if afterDelete.None? then None
        else
          var afterCreate := CreateAll(f, afterDelete.value, u.create);
          if afterCreate.None? then None else MergeAll(f, afterCreate.value, u.merge)
  }
}
