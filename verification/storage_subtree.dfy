/** Loading the part of a graph that lies within a bounded number of reference steps of a start. */
module StorageSubtree {
  import opened EncodedGraph
  import opened GvqlIndex
  import opened GvqlMutationSafety
  import opened Folding

  datatype Reference = Reference(from: ObjectId, to: ObjectId, path: string, depth: nat)

  datatype Queued = Queued(id: ObjectId, depth: nat)

  datatype Subtree = Subtree(root: EncodedValue, nodes: map<ObjectId, EncodedNode>, truncated: seq<Reference>,
                             complete: bool)

  /** `id` is reached from `start` over at most `k` references between nodes of the graph. */
  ghost predicate Within(nodes: map<ObjectId, EncodedNode>, start: ObjectId, k: nat, id: ObjectId)
    decreases k, 0
  {
    if k == 0 then id == start
    else Within(nodes, start, k - 1, id) || exists from | from in nodes :: Step(nodes, start, k - 1, from, id)
  }

  ghost predicate Step(nodes: map<ObjectId, EncodedNode>, start: ObjectId, k: nat, from: ObjectId, id: ObjectId)
    requires from in nodes
    decreases k, 1
  {
    Within(nodes, start, k, from) && id in nodes && RefersTo(nodes[from], id)
  }

  function ReferencesIn(visits: seq<Visit>, from: ObjectId, depth: nat): seq<Reference> {
    if visits == [] then []
    else
      var last := visits[|visits| - 1];
      ReferencesIn(visits[..|visits| - 1], from, depth) +
      (if last.value.Ref? then [Reference(from, last.value.id, last.path, depth)] else [])
  }

  /** `referencesFromNode`. */
  function ReferencesFrom(node: EncodedNode, from: ObjectId, depth: nat): seq<Reference> {
    ReferencesIn(Visits(node), from, depth)
  }

  lemma {:induction false} ReferencesInMember(visits: seq<Visit>, from: ObjectId, depth: nat, r: Reference)
    ensures r in ReferencesIn(visits, from, depth) <==>
            r.from == from && r.depth == depth && Visit(r.path, Ref(r.to)) in visits
    decreases |visits|
  {
    if visits != [] {
      ReferencesInMember(visits[..|visits| - 1], from, depth, r);
      assert visits == visits[..|visits| - 1] + [visits[|visits| - 1]];
    }
  }

  lemma {:induction false} EntryVisitIsSlot(entries: seq<Entry>, v: Visit)
    requires v in EntryVisits(entries)
    ensures v.value in EntrySlots(entries)
    decreases |entries|
  {
    var last := |entries| - 1;
    EntrySlotsMember(entries, v.value);
    if v in EntryVisits(entries[..last]) {
      EntryVisitIsSlot(entries[..last], v);
      EntrySlotsMember(entries[..last], v.value);
      var i :| 0 <= i < last && (entries[..last][i].key == v.value || entries[..last][i].value == v.value);
      assert entries[i] == entries[..last][i];
    }
  }

  lemma VisitIsSlot(node: EncodedNode, v: Visit)
    requires v in Visits(node)
    ensures v.value in Slots(node)
  {
    match node
    case MapNode(entries) => EntryVisitIsSlot(entries, v);
    case ObjectNode(_, props) =>
      var i :| 0 <= i < |props| && PropertyVisits(props)[i] == v;
      PropertySlotsMember(props, v.value);
    case ArrayNode(items) =>
      var i :| 0 <= i < |items| && ItemVisits(items)[i] == v;
    case SetNode(items) =>
      var i :| 0 <= i < |items| && ItemVisits(items)[i] == v;
    case LazyNode(_) =>
  }

  /** The listed references are the node's references. */
  lemma ReferencesExact(node: EncodedNode, from: ObjectId, depth: nat, id: ObjectId)
    ensures (exists r | r in ReferencesFrom(node, from, depth) :: r.to == id) <==> RefersTo(node, id)
  {
    if r :| r in ReferencesFrom(node, from, depth) && r.to == id {
      ReferencesInMember(Visits(node), from, depth, r);
      VisitIsSlot(node, Visit(r.path, Ref(r.to)));
    }
    if RefersTo(node, id) {
      SlotVisited(node, Ref(id));
      var v :| v in Visits(node) && v.value == Ref(id);
      var r := Reference(from, id, v.path, depth);
      assert v == Visit(r.path, Ref(r.to));
      ReferencesInMember(Visits(node), from, depth, r);
    }
  }

  // The queue.

  predicate IsQueued(q: seq<Queued>, id: ObjectId) {
    exists i | 0 <= i < |q| :: q[i].id == id
  }

  /** Distinct nodes of the graph in order of depth, each within its depth of the start. */
  ghost predicate QueueOk(nodes: map<ObjectId, EncodedNode>, start: ObjectId, depth: nat, q: seq<Queued>) {
    && |q| > 0 && q[0] == Queued(start, 0)
    && (forall i | 0 <= i < |q| :: q[i].id in nodes && q[i].depth <= depth && Within(nodes, start, q[i].depth, q[i].id))
    && (forall i, j | 0 <= i < j < |q| :: q[i].id != q[j].id && q[i].depth <= q[j].depth)
  }

  /** Queued no deeper than `k`. */
  ghost predicate QueuedBy(q: seq<Queued>, id: ObjectId, k: nat) {
    exists i | 0 <= i < |q| :: q[i].id == id && q[i].depth <= k
  }

  /** What the nodes before `n` refer to is queued, one step deeper at most. */
  ghost predicate Expanded(nodes: map<ObjectId, EncodedNode>, depth: nat, q: seq<Queued>, n: nat)
    requires n <= |q| && forall i | 0 <= i < |q| :: q[i].id in nodes
  {
    forall i, id {:trigger RefersTo(nodes[q[i].id], id)} |
      0 <= i < n && q[i].depth < depth && id in nodes && RefersTo(nodes[q[i].id], id) :: QueuedBy(q, id, q[i].depth + 1)
  }

  /** The queue's last entries are at most one step deeper than the entry at `n`. */
  predicate Shallow(q: seq<Queued>, n: nat)
    requires n < |q|
  {
    forall i | 0 <= i < |q| :: q[i].depth <= q[n].depth + 1
  }

  function QueuedIds(q: seq<Queued>): set<ObjectId> {
    set e | e in q :: e.id
  }

  lemma {:induction false} QueueFits(nodes: map<ObjectId, EncodedNode>, q: seq<Queued>)
    requires (forall i | 0 <= i < |q| :: q[i].id in nodes) && forall i, j | 0 <= i < j < |q| :: q[i].id != q[j].id
    ensures |q| <= |nodes|
    decreases |q|
  {
    if q != [] {
      var last, front := q[|q| - 1], q[..|q| - 1];
      QueueFits(nodes - {last.id}, front);
      assert (nodes - {last.id}).Keys == nodes.Keys - {last.id};
    }
  }

  lemma QueuedByGrows(q: seq<Queued>, e: Queued, id: ObjectId, k: nat)
    requires QueuedBy(q, id, k)
    ensures QueuedBy(q + [e], id, k)
  {
    var i :| 0 <= i < |q| && q[i].id == id && q[i].depth <= k;
    assert (q + [e])[i] == q[i];
  }

  /** Appending an unseen node one step deeper than the current one keeps the queue in order. */
  lemma QueueGrows(nodes: map<ObjectId, EncodedNode>, start: ObjectId, depth: nat, q: seq<Queued>, n: nat, id: ObjectId)
    requires QueueOk(nodes, start, depth, q) && n < |q| && Shallow(q, n) && q[n].depth < depth
    requires id in nodes && !IsQueued(q, id) && RefersTo(nodes[q[n].id], id)
    ensures var q' := q + [Queued(id, q[n].depth + 1)]; QueueOk(nodes, start, depth, q') && Shallow(q', n)
  {
    assert Step(nodes, start, q[n].depth, q[n].id, id);
    assert Within(nodes, start, q[n].depth + 1, id);
  }

  /** Which references of the processed nodes are candidates for the truncated list. */
  function CandidatesOf(nodes: map<ObjectId, EncodedNode>, depth: nat, at: nat, rs: seq<Reference>): seq<Reference> {
    if rs == [] then []
    else
      var last := rs[|rs| - 1];
      CandidatesOf(nodes, depth, at, rs[..|rs| - 1]) + (if last.to !in nodes || at >= depth then [last] else [])
  }

  /** One entry's share after another, in queue order. */
  function Gather(q: seq<Queued>, f: Queued -> seq<Reference>): seq<Reference> {
    if q == [] then [] else Gather(q[..|q| - 1], f) + f(q[|q| - 1])
  }

  lemma GatherNext(q: seq<Queued>, n: nat, f: Queued -> seq<Reference>)
    requires n < |q|
    ensures Gather(q[..n + 1], f) == Gather(q[..n], f) + f(q[n])
  {
    assert q[..n + 1][..n] == q[..n];
  }

  function OwnReferences(nodes: map<ObjectId, EncodedNode>, e: Queued): seq<Reference> {
    if e.id in nodes then ReferencesFrom(nodes[e.id], e.id, e.depth + 1) else []
  }

  function ReferencesAt(nodes: map<ObjectId, EncodedNode>): Queued -> seq<Reference> {
    (e: Queued) => OwnReferences(nodes, e)
  }

  function CandidatesAt(nodes: map<ObjectId, EncodedNode>, depth: nat): Queued -> seq<Reference> {
    (e: Queued) => CandidatesOf(nodes, depth, e.depth, OwnReferences(nodes, e))
  }

  /** Every reference of the queued nodes, in queue order. */
  function AllReferences(nodes: map<ObjectId, EncodedNode>, q: seq<Queued>): seq<Reference> {
    Gather(q, ReferencesAt(nodes))
  }

  function Leaving(rs: seq<Reference>, included: set<ObjectId>): seq<Reference> {
    if rs == [] then []
    else Leaving(rs[..|rs| - 1], included) + (if rs[|rs| - 1].to in included then [] else [rs[|rs| - 1]])
  }

  /** The loop invariant while the entry at `n` is processed. */
  ghost predicate Working(nodes: map<ObjectId, EncodedNode>, start: ObjectId, depth: nat, q: seq<Queued>, n: nat) {
    forall u {:trigger Unfold(u)} | Unfold(u) ::
      QueueOk(nodes, start, depth, q) && n < |q| && Shallow(q, n) && Expanded(nodes, depth, q, n)
  }

  /** The references looked at so far are queued one step deeper at most. */
  ghost predicate Handled(nodes: map<ObjectId, EncodedNode>, q: seq<Queued>, rs: seq<Reference>, i: nat, k: nat)
    requires i <= |rs|
  {
    forall j | 0 <= j < i && rs[j].to in nodes :: QueuedBy(q, rs[j].to, k)
  }

  /** Queueing one more node keeps the invariant and everything handled. */
  lemma Enqueued(nodes: map<ObjectId, EncodedNode>, start: ObjectId, depth: nat, q: seq<Queued>, n: nat,
                 rs: seq<Reference>, i: nat)
    requires Working(nodes, start, depth, q, n) && n < |q| && q[n].id in nodes && q[n].depth < depth && i < |rs|
    requires rs[i].to in nodes && !IsQueued(q, rs[i].to) && RefersTo(nodes[q[n].id], rs[i].to) &&
             Handled(nodes, q, rs, i, q[n].depth + 1)
    ensures var q' := q + [Queued(rs[i].to, q[n].depth + 1)];
            Working(nodes, start, depth, q', n) && Handled(nodes, q', rs, i + 1, q[n].depth + 1)
  {
    assert Unfold(true);
    var e := Queued(rs[i].to, q[n].depth + 1);
    var q' := q + [e];
    QueueGrows(nodes, start, depth, q, n, rs[i].to);
    GrowthKeeps(nodes, depth, q, e, n);
    forall j | 0 <= j < i + 1 && rs[j].to in nodes ensures QueuedBy(q', rs[j].to, q[n].depth + 1) {
      if j == i {
        assert q'[|q|] == e;
      } else {
        QueuedByGrows(q, e, rs[j].to, q[n].depth + 1);
      }
    }
  }

  lemma AlreadyQueued(nodes: map<ObjectId, EncodedNode>, start: ObjectId, depth: nat, q: seq<Queued>, n: nat,
                      rs: seq<Reference>, i: nat)
    requires Working(nodes, start, depth, q, n) && n < |q| && i < |rs| && Handled(nodes, q, rs, i, q[n].depth + 1)
    requires rs[i].to !in nodes || IsQueued(q, rs[i].to)
    ensures Handled(nodes, q, rs, i + 1, q[n].depth + 1)
  {
    assert Unfold(true);
    if rs[i].to in nodes {
      var j :| 0 <= j < |q| && q[j].id == rs[i].to;
      assert QueuedBy(q, rs[i].to, q[n].depth + 1);
    }
  }

  /** One reference: queued, already there, or a candidate for the truncated list. */
  method EnqueueReference(nodes: map<ObjectId, EncodedNode>, ghost start: ObjectId, depth: nat, q: seq<Queued>, n: nat,
                          rs: seq<Reference>, i: nat)
    returns (q': seq<Queued>, candidate: bool)
    requires Working(nodes, start, depth, q, n) && n < |q| && q[n].id in nodes && i < |rs| &&
             RefersTo(nodes[q[n].id], rs[i].to)
    requires q[n].depth < depth ==> Handled(nodes, q, rs, i, q[n].depth + 1)
    ensures q <= q' && Working(nodes, start, depth, q', n)
    ensures q[n].depth < depth ==> Handled(nodes, q', rs, i + 1, q[n].depth + 1)
    ensures candidate <==> rs[i].to !in nodes || q[n].depth >= depth
  {
    q', candidate := q, rs[i].to !in nodes || q[n].depth >= depth;
    if !candidate && !IsQueued(q, rs[i].to) {
      Enqueued(nodes, start, depth, q, n, rs, i);
      q' := q + [Queued(rs[i].to, q[n].depth + 1)];
    } else if q[n].depth < depth {
      AlreadyQueued(nodes, start, depth, q, n, rs, i);
    }
  }

  lemma CandidatesNext(nodes: map<ObjectId, EncodedNode>, depth: nat, at: nat, rs: seq<Reference>, i: nat)
    requires i < |rs|
    ensures CandidatesOf(nodes, depth, at, rs[..i + 1]) ==
            CandidatesOf(nodes, depth, at, rs[..i]) + (if rs[i].to !in nodes || at >= depth then [rs[i]] else [])
  {
    assert rs[..i + 1][..i] == rs[..i];
  }

  /** Queues what the listed references of the node at `n` reach. */
  method EnqueueListed(nodes: map<ObjectId, EncodedNode>, ghost start: ObjectId, depth: nat, q: seq<Queued>, n: nat,
                       rs: seq<Reference>)
    returns (q': seq<Queued>, candidates: seq<Reference>)
    requires Working(nodes, start, depth, q, n) && n < |q| && q[n].id in nodes
    requires forall r | r in rs :: RefersTo(nodes[q[n].id], r.to)
    ensures q <= q' && Working(nodes, start, depth, q', n)
    ensures candidates == CandidatesOf(nodes, depth, q[n].depth, rs)
    ensures q[n].depth < depth ==> Handled(nodes, q', rs, |rs|, q[n].depth + 1)
  {
    var current := q[n];
    q', candidates := q, [];
    for i := 0 to |rs|
      invariant q <= q' && q'[n] == current && Working(nodes, start, depth, q', n)
      invariant current.depth < depth ==> Handled(nodes, q', rs, i, current.depth + 1)
      invariant candidates == CandidatesOf(nodes, depth, current.depth, rs[..i])
    {
      CandidatesNext(nodes, depth, current.depth, rs, i);
      assert rs[i] in rs;
      var candidate;
      q', candidate := EnqueueReference(nodes, start, depth, q', n, rs, i);
      if candidate {
        candidates := candidates + [rs[i]];
      }
    }
    assert rs[..|rs|] == rs;
  }

  /** The node at `n` has been expanded. */
  ghost predicate Processed(nodes: map<ObjectId, EncodedNode>, depth: nat, q: seq<Queued>, n: nat) {
    forall u {:trigger Unfold(u)} | Unfold(u) ::
      n < |q| && q[n].id in nodes &&
      (q[n].depth < depth ==> Handled(nodes, q, OwnReferences(nodes, q[n]), |OwnReferences(nodes, q[n])|,
                                      q[n].depth + 1))
  }

  lemma OwnRefer(nodes: map<ObjectId, EncodedNode>, e: Queued)
    requires e.id in nodes
    ensures forall r | r in OwnReferences(nodes, e) :: RefersTo(nodes[e.id], r.to)
  {
    forall r | r in OwnReferences(nodes, e) ensures RefersTo(nodes[e.id], r.to) {
      EntryRefers(nodes, e, r);
    }
  }

  /** `enqueueReferences`. */
  method EnqueueReferences(nodes: map<ObjectId, EncodedNode>, ghost start: ObjectId, depth: nat, q: seq<Queued>, n: nat)
    returns (q': seq<Queued>, candidates: seq<Reference>)
    requires Working(nodes, start, depth, q, n) && n < |q| && q[n].id in nodes
    ensures q <= q' && Working(nodes, start, depth, q', n) && Processed(nodes, depth, q', n)
    ensures candidates == CandidatesAt(nodes, depth)(q[n])
  {
    OwnRefer(nodes, q[n]);
    q', candidates := EnqueueListed(nodes, start, depth, q, n, OwnReferences(nodes, q[n]));
    assert q'[n] == q[n];
  }

  lemma GrowthKeeps(nodes: map<ObjectId, EncodedNode>, depth: nat, q: seq<Queued>, e: Queued, n: nat)
    requires n <= |q| && e.id in nodes && (forall i | 0 <= i < |q| :: q[i].id in nodes) && Expanded(nodes, depth, q, n)
    ensures Expanded(nodes, depth, q + [e], n)
  {
    var q' := q + [e];
    forall i, id | 0 <= i < n && q'[i].depth < depth && id in nodes && RefersTo(nodes[q'[i].id], id)
      ensures QueuedBy(q', id, q'[i].depth + 1)
    {
      assert q'[i] == q[i];
      QueuedByGrows(q, e, id, q[i].depth + 1);
    }
  }

  lemma CurrentExpanded(nodes: map<ObjectId, EncodedNode>, depth: nat, q: seq<Queued>, n: nat, rs: seq<Reference>)
    requires n < |q| && (forall i | 0 <= i < |q| :: q[i].id in nodes) && Expanded(nodes, depth, q, n)
    requires rs == ReferencesFrom(nodes[q[n].id], q[n].id, q[n].depth + 1)
    requires q[n].depth < depth ==> Handled(nodes, q, rs, |rs|, q[n].depth + 1)
    ensures Expanded(nodes, depth, q, n + 1)
  {
    forall i, id {:trigger RefersTo(nodes[q[i].id], id)} | 0 <= i < n + 1 && q[i].depth < depth && id in nodes &&
           RefersTo(nodes[q[i].id], id)
      ensures QueuedBy(q, id, q[i].depth + 1)
    {
      if i == n {
        ReferencesExact(nodes[q[n].id], q[n].id, q[n].depth + 1, id);
        var r :| r in rs && r.to == id;
        var j :| 0 <= j < |rs| && rs[j] == r;
      }
    }
  }

  /** With everything expanded, the queue is exactly the nodes within the depth. */
  lemma {:induction false} AllWithinQueued(nodes: map<ObjectId, EncodedNode>, start: ObjectId, depth: nat,
                                           q: seq<Queued>, k: nat, id: ObjectId)
    requires QueueOk(nodes, start, depth, q) && Expanded(nodes, depth, q, |q|)
    requires k <= depth && Within(nodes, start, k, id)
    ensures QueuedBy(q, id, k)
    decreases k
  {
    if k > 0 {
      if Within(nodes, start, k - 1, id) {
        AllWithinQueued(nodes, start, depth, q, k - 1, id);
        var i :| 0 <= i < |q| && q[i].id == id && q[i].depth <= k - 1;
      } else {
        var from :| from in nodes && Step(nodes, start, k - 1, from, id);
        AllWithinQueued(nodes, start, depth, q, k - 1, from);
        var i :| 0 <= i < |q| && q[i].id == from && q[i].depth <= k - 1;
        assert QueuedBy(q, id, q[i].depth + 1);
        var j :| 0 <= j < |q| && q[j].id == id && q[j].depth <= q[i].depth + 1;
      }
    }
  }

  lemma {:induction false} WithinGrows(nodes: map<ObjectId, EncodedNode>, start: ObjectId, k: nat, m: nat, id: ObjectId)
    requires k <= m && Within(nodes, start, k, id)
    ensures Within(nodes, start, m, id)
    decreases m - k
  {
    if k < m {
      WithinGrows(nodes, start, k + 1, m, id);
    }
  }

  lemma QueueIsWithin(nodes: map<ObjectId, EncodedNode>, start: ObjectId, depth: nat, q: seq<Queued>, id: ObjectId)
    requires QueueOk(nodes, start, depth, q) && Expanded(nodes, depth, q, |q|)
    ensures id in QueuedIds(q) <==> Within(nodes, start, depth, id)
  {
    if id in QueuedIds(q) {
      var i :| 0 <= i < |q| && q[i].id == id;
      WithinGrows(nodes, start, q[i].depth, depth, id);
    }
    if Within(nodes, start, depth, id) {
      AllWithinQueued(nodes, start, depth, q, depth, id);
      var i :| 0 <= i < |q| && q[i].id == id && q[i].depth <= depth;
      assert q[i] in q;
    }
  }

  /** The queue's depth of a node is its distance: no shorter walk reaches it. */
  lemma DepthIsDistance(nodes: map<ObjectId, EncodedNode>, start: ObjectId, depth: nat, q: seq<Queued>, i: nat, k: nat)
    requires QueueOk(nodes, start, depth, q) && Expanded(nodes, depth, q, |q|) && i < |q|
    ensures Within(nodes, start, k, q[i].id) <==> q[i].depth <= k
  {
    if q[i].depth <= k {
      WithinGrows(nodes, start, q[i].depth, k, q[i].id);
    }
    if Within(nodes, start, k, q[i].id) {
      if k <= depth {
        AllWithinQueued(nodes, start, depth, q, k, q[i].id);
        var j :| 0 <= j < |q| && q[j].id == q[i].id && q[j].depth <= k;
      }
    }
  }

  // The truncated references.

  lemma {:induction false} LeavingConcat(a: seq<Reference>, b: seq<Reference>, included: set<ObjectId>)
    ensures Leaving(a + b, included) == Leaving(a, included) + Leaving(b, included)
    decreases |b|
  {
    if b == [] {
      assert a + b == a;
    } else {
      assert (a + b)[..|a + b| - 1] == a + b[..|b| - 1];
      LeavingConcat(a, b[..|b| - 1], included);
    }
  }

  lemma {:induction false} CandidatesLeave(nodes: map<ObjectId, EncodedNode>, depth: nat, at: nat, rs: seq<Reference>,
                                           included: set<ObjectId>)
    requires at < depth ==> forall r | r in rs && r.to in nodes :: r.to in included
    ensures Leaving(CandidatesOf(nodes, depth, at, rs), included) == Leaving(rs, included)
    decreases |rs|
  {
    if rs != [] {
      var last, front := rs[|rs| - 1], rs[..|rs| - 1];
      assert last in rs && forall r | r in front :: r in rs;
      CandidatesLeave(nodes, depth, at, front, included);
      var kept := if last.to !in nodes || at >= depth then [last] else [];
      LeavingConcat(CandidatesOf(nodes, depth, at, front), kept, included);
      assert Leaving([last], included) == if last.to in included then [] else [last];
    }
  }

  lemma OwnReferencesIncluded(nodes: map<ObjectId, EncodedNode>, depth: nat, q: seq<Queued>, n: nat, rs: seq<Reference>)
    requires n < |q| && (forall i | 0 <= i < |q| :: q[i].id in nodes) && Expanded(nodes, depth, q, |q|)
    requires rs == ReferencesFrom(nodes[q[n].id], q[n].id, q[n].depth + 1)
    ensures q[n].depth < depth ==> forall r | r in rs && r.to in nodes :: r.to in QueuedIds(q)
  {
    forall r | r in rs && r.to in nodes && q[n].depth < depth ensures r.to in QueuedIds(q) {
      ReferencesExact(nodes[q[n].id], q[n].id, q[n].depth + 1, r.to);
      assert RefersTo(nodes[q[n].id], r.to);
      assert QueuedBy(q, r.to, q[n].depth + 1);
      var i :| 0 <= i < |q| && q[i].id == r.to && q[i].depth <= q[n].depth + 1;
      assert q[i] in q;
    }
  }

  lemma {:induction false} GatherLeaving(q: seq<Queued>, f: Queued -> seq<Reference>, g: Queued -> seq<Reference>,
                                         included: set<ObjectId>)
    requires forall e | e in q :: Leaving(f(e), included) == Leaving(g(e), included)
    ensures Leaving(Gather(q, f), included) == Leaving(Gather(q, g), included)
    decreases |q|
  {
    if q != [] {
      var last, front := q[|q| - 1], q[..|q| - 1];
      assert last in q && forall e | e in front :: e in q;
      GatherLeaving(front, f, g, included);
      LeavingTogether(Gather(front, f), Gather(front, g), f(last), g(last), included);
    }
  }

  /** Once everything is expanded, only references that leave the queue are left among the candidates. */
  lemma AllCandidatesLeave(nodes: map<ObjectId, EncodedNode>, depth: nat, q: seq<Queued>, included: set<ObjectId>)
    requires (forall i | 0 <= i < |q| :: q[i].id in nodes) && Expanded(nodes, depth, q, |q|) && included == QueuedIds(q)
    ensures Leaving(Gather(q, CandidatesAt(nodes, depth)), included) == Leaving(AllReferences(nodes, q), included)
  {
    forall e | e in q ensures Leaving(CandidatesAt(nodes, depth)(e), included) ==
           Leaving(ReferencesAt(nodes)(e), included) {
      EntryLeaves(nodes, depth, q, e);
    }
    GatherLeaving(q, CandidatesAt(nodes, depth), ReferencesAt(nodes), included);
  }

  lemma EntryLeaves(nodes: map<ObjectId, EncodedNode>, depth: nat, q: seq<Queued>, e: Queued)
    requires (forall i | 0 <= i < |q| :: q[i].id in nodes) && Expanded(nodes, depth, q, |q|) && e in q
    ensures Leaving(CandidatesAt(nodes, depth)(e), QueuedIds(q)) == Leaving(ReferencesAt(nodes)(e), QueuedIds(q))
  {
    var n :| 0 <= n < |q| && q[n] == e;
    var rs := ReferencesFrom(nodes[e.id], e.id, e.depth + 1);
    OwnReferencesIncluded(nodes, depth, q, n, rs);
    CandidatesLeave(nodes, depth, e.depth, rs, QueuedIds(q));
  }

  lemma LeavingTogether(a: seq<Reference>, b: seq<Reference>, a': seq<Reference>, b': seq<Reference>,
                        included: set<ObjectId>)
    requires Leaving(a, included) == Leaving(b, included) && Leaving(a', included) == Leaving(b', included)
    ensures Leaving(a + a', included) == Leaving(b + b', included)
  {
    LeavingConcat(a, a', included);
    LeavingConcat(b, b', included);
  }

  lemma {:induction false} LeavingMember(rs: seq<Reference>, included: set<ObjectId>, r: Reference)
    ensures r in Leaving(rs, included) <==> r in rs && r.to !in included
    decreases |rs|
  {
    if rs != [] {
      LeavingMember(rs[..|rs| - 1], included, r);
      assert rs == rs[..|rs| - 1] + [rs[|rs| - 1]];
    }
  }

  lemma {:induction false} GatherMember(q: seq<Queued>, f: Queued -> seq<Reference>, r: Reference)
    ensures r in Gather(q, f) <==> exists e | e in q :: r in f(e)
    decreases |q|
  {
    if q != [] {
      GatherMember(q[..|q| - 1], f, r);
      assert q == q[..|q| - 1] + [q[|q| - 1]];
    }
  }

  /** A gathered reference is one of a queued node. */
  lemma GatheredRefers(nodes: map<ObjectId, EncodedNode>, q: seq<Queued>, r: Reference)
    requires r in AllReferences(nodes, q)
    ensures r.from in QueuedIds(q) && r.from in nodes && RefersTo(nodes[r.from], r.to)
  {
    GatherMember(q, ReferencesAt(nodes), r);
    var e :| e in q && r in ReferencesAt(nodes)(e);
    EntryRefers(nodes, e, r);
  }

  lemma EntryRefers(nodes: map<ObjectId, EncodedNode>, e: Queued, r: Reference)
    requires r in OwnReferences(nodes, e)
    ensures r.from == e.id && e.id in nodes && RefersTo(nodes[e.id], r.to)
  {
    ReferencesInMember(Visits(nodes[e.id]), e.id, e.depth + 1, r);
    ReferencesExact(nodes[e.id], e.id, e.depth + 1, r.to);
  }

  /** Every reference of a queued node is gathered. */
  lemma RefersGathered(nodes: map<ObjectId, EncodedNode>, q: seq<Queued>, from: ObjectId, to: ObjectId)
    returns (r: Reference)
    requires from in QueuedIds(q) && from in nodes && RefersTo(nodes[from], to)
    ensures r in AllReferences(nodes, q) && r.from == from && r.to == to
  {
    var e :| e in q && e.id == from;
    r := EntryReference(nodes, e, to);
    GatherMember(q, ReferencesAt(nodes), r);
  }

  lemma EntryReference(nodes: map<ObjectId, EncodedNode>, e: Queued, to: ObjectId) returns (r: Reference)
    requires e.id in nodes && RefersTo(nodes[e.id], to)
    ensures r in OwnReferences(nodes, e) && r.from == e.id && r.to == to
  {
    r := FindReference(nodes[e.id], e.id, e.depth + 1, to);
  }

  lemma FindReference(node: EncodedNode, from: ObjectId, depth: nat, to: ObjectId) returns (r: Reference)
    requires RefersTo(node, to)
    ensures r in ReferencesFrom(node, from, depth) && r.from == from && r.to == to
  {
    ReferencesExact(node, from, depth, to);
    r :| r in ReferencesFrom(node, from, depth) && r.to == to;
    ReferencesInMember(Visits(node), from, depth, r);
  }

  function Included(nodes: map<ObjectId, EncodedNode>, ids: set<ObjectId>): map<ObjectId, EncodedNode> {
    map id | id in nodes && id in ids :: nodes[id]
  }

  /** Nothing is truncated exactly when the loaded part is closed under references. */
  lemma CompleteIffClosed(nodes: map<ObjectId, EncodedNode>, q: seq<Queued>)
    requires forall i | 0 <= i < |q| :: q[i].id in nodes
    ensures Leaving(AllReferences(nodes, q), QueuedIds(q)) == [] <==> ClosedNodes(Included(nodes, QueuedIds(q)))
  {
    var ids, rs := QueuedIds(q), AllReferences(nodes, q);
    var part, out := Included(nodes, ids), Leaving(rs, ids);
    if out != [] {
      var r := out[0];
      LeavingMember(rs, ids, r);
      GatheredRefers(nodes, q, r);
      assert RefersTo(part[r.from], r.to) && r.to !in part;
    } else {
      forall from, to | from in part && RefersTo(part[from], to) ensures to in part {
        NothingLeaves(nodes, q, from, to);
      }
    }
  }

  lemma NothingLeaves(nodes: map<ObjectId, EncodedNode>, q: seq<Queued>, from: ObjectId, to: ObjectId)
    requires (forall i | 0 <= i < |q| :: q[i].id in nodes) && Leaving(AllReferences(nodes, q), QueuedIds(q)) == []
    requires from in nodes && from in QueuedIds(q) && RefersTo(nodes[from], to)
    ensures to in QueuedIds(q) && to in nodes
  {
    var r := RefersGathered(nodes, q, from, to);
    LeavingMember(AllReferences(nodes, q), QueuedIds(q), r);
    var e :| e in q && e.id == to;
  }

  /** Between two entries: in order, and either more to do or everything expanded. */
  ghost predicate Between(nodes: map<ObjectId, EncodedNode>, start: ObjectId, depth: nat, q: seq<Queued>, n: nat) {
    forall u {:trigger Unfold(u)} | Unfold(u) ::
      && n <= |q| && QueueOk(nodes, start, depth, q) && Expanded(nodes, depth, q, n)
      && (n < |q| ==> Shallow(q, n))
  }

  lemma StartsBetween(nodes: map<ObjectId, EncodedNode>, start: ObjectId, depth: nat)
    requires start in nodes
    ensures Between(nodes, start, depth, [Queued(start, 0)], 0)
  {
  }

  lemma BetweenWorks(nodes: map<ObjectId, EncodedNode>, start: ObjectId, depth: nat, q: seq<Queued>, n: nat)
    requires Between(nodes, start, depth, q, n) && n < |q|
    ensures Working(nodes, start, depth, q, n) && q[n].id in nodes && |q| <= |nodes|
  {
    assert Unfold(true);
    QueueFits(nodes, q);
  }

  /** The next entry is no deeper than one step below the one just processed. */
  lemma WorkedBetween(nodes: map<ObjectId, EncodedNode>, start: ObjectId, depth: nat, q: seq<Queued>, n: nat)
    requires Working(nodes, start, depth, q, n) && Processed(nodes, depth, q, n)
    ensures Between(nodes, start, depth, q, n + 1)
  {
    assert Unfold(true);
    CurrentExpanded(nodes, depth, q, n, OwnReferences(nodes, q[n]));
  }

  lemma IncludedNext(nodes: map<ObjectId, EncodedNode>, q: seq<Queued>, n: nat)
    requires n < |q| && q[n].id in nodes
    ensures Included(nodes, QueuedIds(q[..n + 1])) == Included(nodes, QueuedIds(q[..n]))[q[n].id := nodes[q[n].id]]
  {
    assert q[..n + 1] == q[..n] + [q[n]];
    assert forall e :: e in q[..n + 1] <==> e in q[..n] || e == q[n];
    assert QueuedIds(q[..n + 1]) == QueuedIds(q[..n]) + {q[n].id};
  }

  /** What has been collected from the first `n` nodes. */
  ghost predicate Collected(nodes: map<ObjectId, EncodedNode>, depth: nat, q: seq<Queued>, n: nat,
                            found: map<ObjectId, EncodedNode>,
                            candidates: seq<Reference>) {
    forall u {:trigger Unfold(u)} | Unfold(u) ::
      n <= |q| && found == Included(nodes, QueuedIds(q[..n])) &&
      candidates == Gather(q[..n], CandidatesAt(nodes, depth))
  }

  lemma CollectedNext(nodes: map<ObjectId, EncodedNode>, depth: nat, q: seq<Queued>, q': seq<Queued>, n: nat,
                      found: map<ObjectId, EncodedNode>, candidates: seq<Reference>)
    requires Collected(nodes, depth, q, n, found, candidates) && q <= q' && n < |q| && q[n].id in nodes
    ensures Collected(nodes, depth, q', n + 1, found[q[n].id := nodes[q[n].id]],
                      candidates + CandidatesAt(nodes, depth)(q[n]))
  {
    assert Unfold(true);
    assert q'[n] == q[n] && q'[..n] == q[..n];
    IncludedNext(nodes, q', n);
    GatherNext(q', n, CandidatesAt(nodes, depth));
  }

  /** Loads the node at `n` and queues what it refers to. */
  method LoadNext(nodes: map<ObjectId, EncodedNode>, ghost start: ObjectId, depth: nat, q: seq<Queued>, n: nat,
                  found: map<ObjectId, EncodedNode>, candidates: seq<Reference>)
    returns (q': seq<Queued>, found': map<ObjectId, EncodedNode>, candidates': seq<Reference>)
    requires Between(nodes, start, depth, q, n) && n < |q| && Collected(nodes, depth, q, n, found, candidates)
    ensures n < |q'| && Between(nodes, start, depth, q', n + 1) &&
            Collected(nodes, depth, q', n + 1, found', candidates')
  {
    BetweenWorks(nodes, start, depth, q, n);
    found' := found[q[n].id := nodes[q[n].id]];
    var more;
    q', more := EnqueueReferences(nodes, start, depth, q, n);
    WorkedBetween(nodes, start, depth, q', n);
    CollectedNext(nodes, depth, q, q', n, found, candidates);
    candidates' := candidates + more;
  }

  /** `loadSubtree`: breadth first over a queue that grows while it is read. */
  method LoadFrom(nodes: map<ObjectId, EncodedNode>, start: ObjectId, depth: nat) returns (t: Subtree,
      ghost q: seq<Queued>)
    requires start in nodes
    ensures QueueOk(nodes, start, depth, q) && Expanded(nodes, depth, q, |q|)
    ensures t.root == Ref(start) && t.nodes == Included(nodes, QueuedIds(q))
    ensures t.truncated == Leaving(AllReferences(nodes, q), QueuedIds(q))
    ensures t.complete <==> t.truncated == []
  {
    var queue := [Queued(start, 0)];
    var found: map<ObjectId, EncodedNode> := map[];
    var candidates: seq<Reference> := [];
    var n := 0;
    StartsBetween(nodes, start, depth);
    while n < |queue|
      invariant Between(nodes, start, depth, queue, n) && n <= |queue|
      invariant Collected(nodes, depth, queue, n, found, candidates)
      decreases |nodes| - n
    {
      BetweenWorks(nodes, start, depth, queue, n);
      queue, found, candidates := LoadNext(nodes, start, depth, queue, n, found, candidates);
      n := n + 1;
    }
    q := queue;
    LoadedAll(nodes, start, depth, queue, found, candidates);
    var truncated := FilterLeaving(candidates, found.Keys);
    t := Subtree(Ref(start), found, truncated, truncated == []);
  }

  lemma LoadedAll(nodes: map<ObjectId, EncodedNode>, start: ObjectId, depth: nat, q: seq<Queued>,
                  found: map<ObjectId, EncodedNode>,
                  candidates: seq<Reference>)
    requires Between(nodes, start, depth, q, |q|) && Collected(nodes, depth, q, |q|, found, candidates)
    ensures QueueOk(nodes, start, depth, q) && Expanded(nodes, depth, q, |q|)
    ensures found == Included(nodes, QueuedIds(q)) && found.Keys == QueuedIds(q)
    ensures Leaving(candidates, QueuedIds(q)) == Leaving(AllReferences(nodes, q), QueuedIds(q))
  {
    assert Unfold(true);
    assert q[..|q|] == q;
    forall id | id in QueuedIds(q) ensures id in nodes {
      var e :| e in q && e.id == id;
    }
    AllCandidatesLeave(nodes, depth, q, QueuedIds(q));
  }

  method FilterLeaving(rs: seq<Reference>, included: set<ObjectId>) returns (r: seq<Reference>)
    ensures r == Leaving(rs, included)
  {
    r := [];
    for i := 0 to |rs|
      invariant r == Leaving(rs[..i], included)
    {
      assert rs[..i + 1][..i] == rs[..i];
      if rs[i].to !in included {
        r := r + [rs[i]];
      }
    }
    assert rs[..|rs|] == rs;
  }

  /**
   * Exactly the nodes within the depth, unchanged; complete exactly when closed; every truncated reference leaves the
   * part.
   */
  ghost predicate IsSubtree(e: Envelope, depth: nat, start: EncodedValue, t: Subtree) {
    t.root == start &&
    if !start.Ref? then t.nodes == map[] && t.truncated == [] && t.complete
    else Loads(e.nodes, start.id, depth, t)
  }

  ghost predicate Loads(nodes: map<ObjectId, EncodedNode>, start: ObjectId, depth: nat, t: Subtree) {
    && (forall id :: id in t.nodes <==> Within(nodes, start, depth, id))
    && (forall id | id in t.nodes :: id in nodes && t.nodes[id] == nodes[id])
    && (t.complete <==> ClosedNodes(t.nodes))
    && (forall from, to :: Truncates(t, from, to) <==> TruncatedAt(t, from, to))
  }

  /** A reference of the loaded part to a node outside it. */
  ghost predicate TruncatedAt(t: Subtree, from: ObjectId, to: ObjectId) {
    from in t.nodes && to !in t.nodes && RefersTo(t.nodes[from], to)
  }

  ghost predicate Truncates(t: Subtree, from: ObjectId, to: ObjectId) {
    exists r | r in t.truncated :: r.from == from && r.to == to
  }

  lemma TruncatesExactly(nodes: map<ObjectId, EncodedNode>, q: seq<Queued>, t: Subtree, from: ObjectId, to: ObjectId)
    requires t.nodes == Included(nodes, QueuedIds(q)) && t.nodes.Keys == QueuedIds(q)
    requires t.truncated == Leaving(AllReferences(nodes, q), QueuedIds(q))
    ensures Truncates(t, from, to) <==> TruncatedAt(t, from, to)
  {
    if Truncates(t, from, to) {
      var r :| r in t.truncated && r.from == from && r.to == to;
      LeavingMember(AllReferences(nodes, q), QueuedIds(q), r);
      GatheredRefers(nodes, q, r);
    }
    if TruncatedAt(t, from, to) {
      var r := RefersGathered(nodes, q, from, to);
      LeavingMember(AllReferences(nodes, q), QueuedIds(q), r);
    }
  }

  lemma LoadedExactly(nodes: map<ObjectId, EncodedNode>, start: ObjectId, depth: nat, q: seq<Queued>, t: Subtree)
    requires QueueOk(nodes, start, depth, q) && Expanded(nodes, depth, q, |q|)
    requires t.nodes == Included(nodes, QueuedIds(q)) && t.truncated == Leaving(AllReferences(nodes, q), QueuedIds(q))
    requires t.complete <==> t.truncated == []
    ensures Loads(nodes, start, depth, t)
  {
    forall id ensures id in t.nodes <==> Within(nodes, start, depth, id) {
      QueueIsWithin(nodes, start, depth, q, id);
      if id in QueuedIds(q) {
        var e :| e in q && e.id == id;
      }
    }
    assert t.nodes.Keys == QueuedIds(q) by {
      forall id | id in QueuedIds(q) ensures id in nodes {
        var e :| e in q && e.id == id;
      }
    }
    CompleteIffClosed(nodes, q);
    forall from, to ensures Truncates(t, from, to) <==> TruncatedAt(t, from, to) {
      TruncatesExactly(nodes, q, t, from, to);
    }
  }

  /** `loadSubtreeFromEnvelope`: errors for a negative depth or an unknown start, and nothing to load without one. */
  method LoadSubtree(e: Envelope, depth: int, root: Option<ObjectId>) returns (t: Option<Subtree>)
    ensures t.None? <==> depth < 0 || (if root.Some? then root.value !in e.nodes
                                       else e.root.Ref? && e.root.id !in e.nodes)
    ensures t.Some? ==> IsSubtree(e, depth, if root.Some? then Ref(root.value) else e.root, t.value)
  {
    if depth < 0 {
      return None;
    }
    var start := if root.Some? then Ref(root.value) else e.root;
    if !start.Ref? {
      return Some(Subtree(start, map[], [], true));
    }
    if start.id !in e.nodes {
      return None;
    }
    ghost var q;
    var r;
    r, q := LoadFrom(e.nodes, start.id, depth);
    LoadedExactly(e.nodes, start.id, depth, q, r);
    t := Some(r);
  }
}
