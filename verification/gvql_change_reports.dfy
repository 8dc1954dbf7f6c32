/** What an update statement reports, against what it did. */
module GvqlChangeReports {
  import opened EncodedGraph
  import opened StorageDisk
  import opened GvqlValues
  import opened GvqlExpressions
  import opened GvqlIndex
  import opened GvqlMutations
  import opened GvqlMergeIdempotence
  import opened GvqlMutationEffects
  import opened Enumerations

  // DELETE.

  ghost function FromSurvivor(nodes: map<ObjectId, EncodedNode>, doomed: set<ObjectId>): Edge -> bool {
    (e: Edge) => e.from in nodes && e.from !in doomed
  }

  ghost function AsDetached(target: ObjectId): Edge -> Change {
    (e: Edge) => Change(e.from, "$parent", e.path, Detaching, JsReference(target), JsUndefined)
  }

  /** Each edge into a deleted node from one that stays is reported detached, once, in edge order. */
  lemma {:induction false} DetachesOnce(nodes: map<ObjectId, EncodedNode>, target: ObjectId, edges: seq<Edge>,
                                        doomed: set<ObjectId>)
    ensures Selects(edges, FromSurvivor(nodes, doomed), AsDetached(target), DetachChanges(nodes, target, edges, doomed))
    decreases |edges|
  {
    if edges == [] {
      SelectsNone(FromSurvivor(nodes, doomed), AsDetached(target));
    } else {
      var front, last := edges[..|edges| - 1], edges[|edges| - 1];
      DetachesOnce(nodes, target, front, doomed);
      SelectsNext(front, FromSurvivor(nodes, doomed), AsDetached(target), DetachChanges(nodes, target, front, doomed),
                  last);
      assert front + [last] == edges;
    }
  }

  /** A detachment is reported for an edge into one of the deleted nodes from one that stays. */
  ghost predicate IsDetachment(f: Frame, nodes: map<ObjectId, EncodedNode>, ids: set<ObjectId>, x: Change) {
    exists e: Edge, to | to in ids && e in Bucket(f.incoming, to) ::
      && e.from in nodes && e.from !in ids
      && x == Change(e.from, "$parent", e.path, Detaching, JsReference(to), JsUndefined)
  }

  lemma DetachMember(nodes: map<ObjectId, EncodedNode>, target: ObjectId, edges: seq<Edge>, doomed: set<ObjectId>,
                     x: Change)
    ensures x in DetachChanges(nodes, target, edges, doomed) <==>
            exists e | e in edges :: e.from in nodes && e.from !in doomed &&
              x == Change(e.from, "$parent", e.path, Detaching, JsReference(target), JsUndefined)
  {
    DetachesOnce(nodes, target, edges, doomed);
    SelectsMembers(edges, FromSurvivor(nodes, doomed), AsDetached(target),
                   DetachChanges(nodes, target, edges, doomed), x);
  }

  lemma {:induction false} DetachmentsReported(f: Frame, nodes: map<ObjectId, EncodedNode>, doomed: seq<Doomed>,
                                               ids: set<ObjectId>, x: Change)
    ensures x in AllDetachChanges(f, nodes, doomed, ids) <==>
            exists d | d in doomed :: x in DetachChanges(nodes, d.id, Bucket(f.incoming, d.id), ids)
    decreases |doomed|
  {
    if doomed != [] {
      DetachmentsReported(f, nodes, doomed[..|doomed| - 1], ids, x);
      assert doomed == doomed[..|doomed| - 1] + [doomed[|doomed| - 1]];
    }
  }

  lemma AllDetachments(f: Frame, nodes: map<ObjectId, EncodedNode>, doomed: seq<Doomed>, x: Change)
    ensures x in AllDetachChanges(f, nodes, doomed, DoomedIds(doomed)) <==>
            IsDetachment(f, nodes, DoomedIds(doomed), x)
  {
    var ids := DoomedIds(doomed);
    DetachmentsReported(f, nodes, doomed, ids, x);
    forall d | d in doomed
      ensures x in DetachChanges(nodes, d.id, Bucket(f.incoming, d.id), ids) <==>
              exists e | e in Bucket(f.incoming, d.id) :: e.from in nodes && e.from !in ids &&
                x == Change(e.from, "$parent", e.path, Detaching, JsReference(d.id), JsUndefined)
    {
      DetachMember(nodes, d.id, Bucket(f.incoming, d.id), ids, x);
    }
    if e: Edge, to :| to in ids && e in Bucket(f.incoming, to) && e.from in nodes && e.from !in ids &&
                      x == Change(e.from, "$parent", e.path, Detaching, JsReference(to), JsUndefined) {
      var d :| d in doomed && d.id == to;
      assert x in DetachChanges(nodes, d.id, Bucket(f.incoming, d.id), ids);
    }
  }

  lemma {:induction false} DeletionsReported(doomed: seq<Doomed>)
    ensures Deletions(doomed, DeleteChanges(doomed))
    decreases |doomed|
  {
    if doomed != [] {
      DeletionsReported(doomed[..|doomed| - 1]);
    }
  }

  /** The job at `k` is the first to denote the node. */
  predicate FirstToDenote(st: Edit, jobs: seq<Job<string>>, d: Doomed, k: nat) {
    && k < |jobs| && jobs[k].item == d.alias && Denoted(st, jobs[k].row, jobs[k].item) == Some(d.id)
    && forall j: nat | j < k :: Denoted(st, jobs[j].row, jobs[j].item) != Some(d.id)
  }

  /** `at[i]` is the job that names the node at `i` first. */
  ghost predicate NamedFirst(st: Edit, jobs: seq<Job<string>>, r: seq<Doomed>, at: seq<nat>) {
    && |at| == |r| && Ascending(at)
    && forall i | 0 <= i < |r| :: FirstToDenote(st, jobs, r[i], at[i])
  }

  lemma StaysFirst(st: Edit, front: seq<Job<string>>, last: Job<string>, r: seq<Doomed>, at: seq<nat>)
    requires NamedFirst(st, front, r, at)
    ensures NamedFirst(st, front + [last], r, at)
  {
    var jobs := front + [last];
    forall i | 0 <= i < |r| ensures FirstToDenote(st, jobs, r[i], at[i]) {
      assert FirstToDenote(st, front, r[i], at[i]);
      assert forall j: nat | j <= at[i] :: jobs[j] == front[j];
    }
  }

  lemma NewIsFirst(st: Edit, front: seq<Job<string>>, last: Job<string>, r: seq<Doomed>, at: seq<nat>, d: Doomed)
    requires NamedFirst(st, front, r, at) && FirstToDenote(st, front + [last], d, |front|)
    ensures NamedFirst(st, front + [last], r + [d], at + [|front|])
  {
    StaysFirst(st, front, last, r, at);
    forall i | 0 <= i < |at| ensures at[i] < |front| {
      assert FirstToDenote(st, front, r[i], at[i]);
    }
  }

  lemma {:induction false} NamedIsDoomed(st: Edit, jobs: seq<Job<string>>, j: nat, id: ObjectId)
    requires j < |jobs| && Denoted(st, jobs[j].row, jobs[j].item) == Some(id)
    ensures id in DoomedIds(DoomedBy(st, jobs))
    decreases |jobs|
  {
    var front, last := jobs[..|jobs| - 1], jobs[|jobs| - 1];
    var before := DoomedBy(st, front);
    if j < |front| {
      NamedIsDoomed(st, front, j, id);
      var d :| d in before && d.id == id;
      assert d in DoomedBy(st, jobs);
    } else if id in DoomedIds(before) {
      var d :| d in before && d.id == id;
      assert d in DoomedBy(st, jobs);
    } else {
      assert Doomed(id, last.item) in DoomedBy(st, jobs);
    }
  }

  /** The deleted nodes are listed in the order in which they are named first, with the alias that names them first. */
  lemma {:induction false} DoomedOnce(st: Edit, jobs: seq<Job<string>>) returns (at: seq<nat>)
    ensures NamedFirst(st, jobs, DoomedBy(st, jobs), at)
    decreases |jobs|
  {
    if jobs == [] {
      at := [];
    } else {
      var front, last := jobs[..|jobs| - 1], jobs[|jobs| - 1];
      assert front + [last] == jobs;
      at := DoomedOnce(st, front);
      var before, id := DoomedBy(st, front), Denoted(st, last.row, last.item);
      if id.None? || id.value in DoomedIds(before) {
        StaysFirst(st, front, last, before, at);
      } else {
        forall j: nat | j < |front|
          ensures Denoted(st, front[j].row, front[j].item) == Some(id.value) ==> id.value in DoomedIds(before)
        {
          if Denoted(st, front[j].row, front[j].item) == Some(id.value) {
            NamedIsDoomed(st, front, j, id.value);
          }
        }
        assert forall j: nat | j < |front| :: jobs[j] == front[j];
        NewIsFirst(st, front, last, before, at, Doomed(id.value, last.item));
        at := at + [|front|];
      }
    }
  }

  ghost function DetachmentsOf(f: Frame, nodes: map<ObjectId, EncodedNode>, ids: set<ObjectId>): Doomed -> seq<Change> {
    (d: Doomed) => DetachChanges(nodes, d.id, Bucket(f.incoming, d.id), ids)
  }

  /** Detachments are reported for one deleted node after the other. */
  lemma {:induction false} DetachedInTurn(f: Frame, nodes: map<ObjectId, EncodedNode>, doomed: seq<Doomed>,
                                          ids: set<ObjectId>)
    ensures AllDetachChanges(f, nodes, doomed, ids) == Flat(doomed, DetachmentsOf(f, nodes, ids))
    decreases |doomed|
  {
    if doomed != [] {
      DetachedInTurn(f, nodes, doomed[..|doomed| - 1], ids);
    }
  }

  ghost predicate ExactlyDetachments(f: Frame, nodes: map<ObjectId, EncodedNode>, ids: set<ObjectId>, r: seq<Change>) {
    forall x :: x in r <==> IsDetachment(f, nodes, ids, x)
  }

  ghost predicate Deletions(doomed: seq<Doomed>, r: seq<Change>) {
    |r| == |doomed| && forall i | 0 <= i < |r| ::
      r[i] == Change(doomed[i].id, doomed[i].alias, "", Deleting, JsSummary(doomed[i].id), JsUndefined)
  }

  lemma AllDetachmentsExact(f: Frame, nodes: map<ObjectId, EncodedNode>, doomed: seq<Doomed>)
    ensures ExactlyDetachments(f, nodes, DoomedIds(doomed), AllDetachChanges(f, nodes, doomed, DoomedIds(doomed)))
  {
    forall x ensures x in AllDetachChanges(f, nodes, doomed, DoomedIds(doomed)) <==>
                     IsDetachment(f, nodes, DoomedIds(doomed), x) {
      AllDetachments(f, nodes, doomed, x);
    }
  }

  /** DELETE reports the detachments and then the deletions, one for each deleted node. */
  lemma DeleteReports(f: Frame, st: Edit, delete: seq<string>) returns (detached: seq<Change>, deleted: seq<Change>)
    requires DeleteAll(f, st, delete).Some? && delete != []
    ensures DeleteAll(f, st, delete).value.changes == st.changes + detached + deleted
    ensures ExactlyDetachments(f, st.nodes, DoomedIds(DoomedBy(st, Jobs(|st.bindings|, delete))), detached)
    ensures Deletions(DoomedBy(st, Jobs(|st.bindings|, delete)), deleted)
  {
    var doomed := DoomedBy(st, Jobs(|st.bindings|, delete));
    detached, deleted := AllDetachChanges(f, st.nodes, doomed, DoomedIds(doomed)), DeleteChanges(doomed);
    DeletionsReported(doomed);
    AllDetachmentsExact(f, st.nodes, doomed);
  }

  // CREATE and MERGE.

  function PathText(into: Target): string {
    if into.path.Some? then into.path.value.text else ""
  }

  /** The target has no collection under its path yet. */
  predicate StartsOne(st: Edit, b: Binding, into: Target) {
    && into.alias in b && b[into.alias] in st.nodes && into.path.Some?
    && GetNodePath(st.nodes[b[into.alias]], into.path.value).None?
  }

  /** What follows the report of the new node: who received a reference, under which path, and to what. */
  ghost predicate AttachReported(st: Edit, st': Edit, b: Binding, into: Target, id: ObjectId, more: seq<Change>) {
    var to := Receiver(st, b, into);
    && to.Some?
    && if StartsOne(st, b, into) then
         exists c :: && c !in st.nodes && c in st'.nodes && st'.nodes[c] == ArrayNode([Ref(id)])
                     && more == [Change(c, "$collection", "", Creating, JsUndefined, JsArray([])),
                                 Change(to.value, into.alias, PathText(into), Attaching, JsUndefined, JsReference(c))]
       else more == [Change(to.value, into.alias, PathText(into), Attaching, JsUndefined, JsReference(id))]
  }

  lemma AttachReports(st: Edit, b: Binding, into: Target, id: ObjectId)
    requires AttachCreated(st, b, into, id).Some?
    ensures var st' := AttachCreated(st, b, into, id).value;
            && st.changes <= st'.changes
            && AttachReported(st, st', b, into, id, st'.changes[|st.changes|..])
  {
    var st' := AttachCreated(st, b, into, id).value;
    if StartsOne(st, b, into) {
      var c := NextId(st.nodes);
      assert st'.changes[|st.changes|..] ==
             [Change(c, "$collection", "", Creating, JsUndefined, JsArray([])),
              Change(b[into.alias], into.alias, PathText(into), Attaching, JsUndefined, JsReference(c))];
      assert c !in st.nodes && st'.nodes[c] == ArrayNode([Ref(id)]);
    }
  }

  /** A CREATE reports its node, and then where it was attached. */
  lemma CreateReports(f: Frame, st: Edit, job: Job<CreateClause>)
    requires CreateStep(f, st, job).Some?
    ensures var c, id, st' := job.item, NextId(st.nodes), CreateStep(f, st, job).value;
            && |st.changes| < |st'.changes| && st.changes <= st'.changes
            && st'.changes[|st.changes|] == Change(id, c.alias, "", Creating, JsUndefined, JsSummary(id))
            && exists made: Edit :: && made.changes == st.changes + [st'.changes[|st.changes|]]
                                    && made.bindings == st'.bindings && made.nodes.Keys == st.nodes.Keys + {id}
                                    && AttachReported(made, st', st'.bindings[job.row], c.into, id,
                                                      st'.changes[|st.changes| + 1..])
  {
    var c, id := job.item, NextId(st.nodes);
    var props := EvaluateFields(At(f, st), st.bindings[job.row], c.fields).value;
    var st', made := CreateStep(f, st, job).value, Made(st, job.row, c, props, Creating, "");
    AttachReports(made, made.bindings[job.row], c.into, id);
    assert st'.changes[|made.changes|..] == st'.changes[|st.changes| + 1..];
    assert st'.bindings == made.bindings;
  }

  /** A MERGE that makes a node reports it under the path it merges on; one that finds a node reports nothing. */
  lemma MergeReports(f: Frame, st: Edit, job: Job<MergeClause>)
    requires MergeStep(f, st, job).Some?
    ensures var c, id, st' := job.item.create, NextId(st.nodes), MergeStep(f, st, job).value;
            if JobCandidate(f, st, job).NotFound? then
              && |st.changes| < |st'.changes| && st.changes <= st'.changes
              && st'.changes[|st.changes|] ==
                 Change(id, c.alias, job.item.on.value.text, Merging, JsUndefined, JsSummary(id))
            else st'.changes == st.changes
  {
    var c, id := job.item.create, NextId(st.nodes);
    if JobCandidate(f, st, job).NotFound? {
      var props := JobProps(f, st, job).value;
      var made := Made(st, job.row, c, props, Merging, job.item.on.value.text);
      AttachReports(made, made.bindings[job.row], c.into, id);
    }
  }

  /** The id of a new node is the least free one above every safe id in use. */
  lemma NextIdIsLeast(nodes: map<ObjectId, EncodedNode>, k: nat)
    requires k > 0 && k !in nodes && forall j | j in nodes && j <= 9007199254740991 :: j < k
    ensures NextId(nodes) <= k
  {
    var top := Highest(SafeIds(nodes));
    assert top < k;
    assert FirstFree(nodes, top + 1) <= k;
  }

  predicate IsJsonNull(v: JsValue) {
    v == JsNull || v == JsSpecial(NotANumber) || v == JsSpecial(PositiveInfinity) || v == JsSpecial(NegativeInfinity)
  }

  predicate IsZero(v: JsValue) {
    v == JsNumber(0.0) || v == JsSpecial(NegativeZero)
  }

  /** MERGE compares by JSON text: null, NaN and the infinities are one value to it, and so are the zeros. */
  lemma MergeMatches(a: JsValue, b: JsValue)
    ensures SameMergeValue(a, b) == if a.JsBigInt? || b.JsBigInt? then None
                                    else Some(a == b || (IsJsonNull(a) && IsJsonNull(b)) || (IsZero(a) && IsZero(b)))
  {
  }

  /** Whether an item refers to a node with the value; an error when that cannot be compared. */
  function Tells(nodes: map<ObjectId, EncodedNode>, item: EncodedValue, on: Path, expected: JsValue): Option<bool> {
    if item.Ref? && item.id in nodes then SameMergeValue(PathToJs(GetNodePath(nodes[item.id], on)), expected)
    else Some(false)
  }

  /** MERGE finds the first item that refers to a node with the value, unless an item before it cannot be compared. */
  lemma {:induction false} FindsFirst(nodes: map<ObjectId, EncodedNode>, items: seq<EncodedValue>, on: Path,
                                      expected: JsValue, n: nat)
    requires n <= |items| && forall i | 0 <= i < n :: Tells(nodes, items[i], on, expected) == Some(false)
    ensures var r := FindCandidate(nodes, items, on, expected);
            if n == |items| then r == NotFound
            else match Tells(nodes, items[n], on, expected)
              case None => r == Failed
              case Some(true) => items[n].Ref? && r == Found(items[n].id)
              case Some(false) => true
    decreases n
  {
    if n > 0 {
      assert Tells(nodes, items[0], on, expected) == Some(false);
      FindsFirst(nodes, items[1..], on, expected, n - 1);
    }
  }
}
