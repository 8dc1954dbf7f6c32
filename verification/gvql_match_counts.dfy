/** How often each edge and each row is found, and in which order. */
module GvqlMatchCounts {
  // Membership says which rows a pattern gives. Here each row is traced to the choice of start and edges it comes from.

  import opened EncodedGraph
  import opened GvqlValues
  import opened GvqlExpressions
  import opened GvqlIndex
  import opened GvqlMatcher
  import opened Enumerations
  import opened Folding

  // Edges: one for each reference.

  function IsReference(): Visit -> bool {
    (v: Visit) => v.value.Ref?
  }

  function EdgeAt(from: ObjectId): Visit -> Edge {
    (v: Visit) => if v.value.Ref? then Edge(from, v.value.id, v.path, EdgeLabel(v.path)) else Edge(from, from, "", "")
  }

  function LeavesFrom(id: ObjectId): Edge -> bool {
    (x: Edge) => x.from == id
  }

  function Enters(id: ObjectId): Edge -> bool {
    (x: Edge) => x.to == id
  }

  lemma {:induction false} EdgesOfOnce(from: ObjectId, visits: seq<Visit>)
    ensures Selects(visits, IsReference(), EdgeAt(from), EdgesOf(from, visits))
    decreases |visits|
  {
    if visits == [] {
      SelectsNone(IsReference(), EdgeAt(from));
    } else {
      var front, last := visits[..|visits| - 1], visits[|visits| - 1];
      EdgesOfOnce(from, front);
      SelectsNext(front, IsReference(), EdgeAt(from), EdgesOf(from, front), last);
      assert front + [last] == visits;
    }
  }

  lemma {:induction false} EdgesByEnd(es: seq<Edge>, id: ObjectId)
    ensures Selects(es, LeavesFrom(id), Itself(), EdgesOut(es, id))
    ensures Selects(es, Enters(id), Itself(), EdgesIn(es, id))
    decreases |es|
  {
    if es == [] {
      SelectsNone(LeavesFrom(id), Itself());
      SelectsNone(Enters(id), Itself());
    } else {
      var front, last := es[..|es| - 1], es[|es| - 1];
      EdgesByEnd(front, id);
      SelectsNext(front, LeavesFrom(id), Itself(), EdgesOut(front, id), last);
      SelectsNext(front, Enters(id), Itself(), EdgesIn(front, id), last);
      assert front + [last] == es;
    }
  }

  ghost function EdgesFrom(nodes: map<ObjectId, EncodedNode>): ObjectId -> seq<Edge> {
    (id: ObjectId) => if id in nodes then ReferencedEdges(id, nodes[id]) else []
  }

  lemma {:induction false} AllEdgesFlat(order: seq<ObjectId>, nodes: map<ObjectId, EncodedNode>)
    requires forall id | id in order :: id in nodes
    ensures AllEdges(order, nodes) == Flat(order, EdgesFrom(nodes))
    decreases |order|
  {
    if order != [] {
      assert order[|order| - 1] in order;
      AllEdgesFlat(order[..|order| - 1], nodes);
    }
  }

  /**
   * The edge lists of an index: all references of all nodes, node by node, and of these the ones leaving and entering.
   */
  lemma EdgesOnce(ix: GraphIndex, order: seq<ObjectId>, nodes: map<ObjectId, EncodedNode>, id: ObjectId)
    requires (forall x | x in order :: x in nodes) && EdgesIndexed(ix, order, nodes)
    ensures exists all, blocks ::
              && InBlocks(order, EdgesFrom(nodes), all, blocks)
              && (forall x | x in order :: Selects(Visits(nodes[x]), IsReference(), EdgeAt(x), EdgesFrom(nodes)(x)))
              && Selects(all, LeavesFrom(id), Itself(), Bucket(ix.outgoing, id))
              && Selects(all, Enters(id), Itself(), Bucket(ix.incoming, id))
  {
    var all := AllEdges(order, nodes);
    AllEdgesFlat(order, nodes);
    var blocks := FlatInBlocks(order, EdgesFrom(nodes));
    EdgesByEnd(all, id);
    forall x | x in order ensures Selects(Visits(nodes[x]), IsReference(), EdgeAt(x), EdgesFrom(nodes)(x)) {
      EdgesOfOnce(x, Visits(nodes[x]));
    }
  }

  ghost function IsOfType(nodes: map<ObjectId, EncodedNode>, typeName: string): ObjectId -> bool {
    (id: ObjectId) => id in nodes && TypeOf(nodes[id]) == Some(typeName)
  }

  /** The type index lists the nodes of a type, each once, in the order of the nodes. */
  lemma {:induction false} TypesOnce(order: seq<ObjectId>, nodes: map<ObjectId, EncodedNode>, typeName: string)
    requires forall id | id in order :: id in nodes
    ensures Selects(order, IsOfType(nodes, typeName), Itself(), OfType(order, nodes, typeName))
    decreases |order|
  {
    if order == [] {
      SelectsNone(IsOfType(nodes, typeName), Itself<ObjectId>());
    } else {
      var front, last := order[..|order| - 1], order[|order| - 1];
      TypesOnce(front, nodes, typeName);
      SelectsNext(front, IsOfType(nodes, typeName), Itself(), OfType(front, nodes, typeName), last);
      assert front + [last] == order;
    }
  }

  /** The positions of a map: the key and the value of each entry in turn. */
  lemma {:induction false} EntryVisitsAt(entries: seq<Entry>)
    ensures |EntryVisits(entries)| == 2 * |entries|
    ensures forall i | 0 <= i < |entries| ::
              && EntryVisits(entries)[2 * i] == Visit("entries[" + Decimal(i) + "].key", entries[i].key)
              && EntryVisits(entries)[2 * i + 1] == Visit("entries[" + Decimal(i) + "].value", entries[i].value)
    decreases |entries|
  {
    if entries != [] {
      EntryVisitsAt(entries[..|entries| - 1]);
    }
  }

  /** The label is the path up to its first bracket or dot. */
  lemma {:induction false} LabelIsPrefix(path: string)
    ensures var tag := EdgeLabel(path);
            && |tag| <= |path| && path[..|tag|] == tag && '[' !in tag && '.' !in tag
            && (|tag| < |path| ==> path[|tag|] == '[' || path[|tag|] == '.')
  {
    if path != "" && path[0] != '[' && path[0] != '.' {
      LabelIsPrefix(path[1..]);
    }
  }

  // Rows: one for each choice.

  function AcceptedEdge(nodes: map<ObjectId, EncodedNode>, b: Binding, link: Link): Edge -> bool {
    (x: Edge) => Accepts(nodes, b, link, x)
  }

  function BindFar(b: Binding, link: Link): Edge -> Binding {
    (x: Edge) => b[link.node.alias := Far(link, x)]
  }

  /** The rows one binding gets from one link: one for each edge it accepts, in edge order. */
  lemma {:induction false} FollowOnce(nodes: map<ObjectId, EncodedNode>, b: Binding, link: Link, es: seq<Edge>)
    ensures Selects(es, AcceptedEdge(nodes, b, link), BindFar(b, link), Follow(nodes, b, link, es))
    decreases |es|
  {
    var keep, make := AcceptedEdge(nodes, b, link), BindFar(b, link);
    if es == [] {
      SelectsNone(keep, make);
    } else {
      var front, last := es[..|es| - 1], es[|es| - 1];
      FollowOnce(nodes, b, link, front);
      SelectsNext(front, keep, make, Follow(nodes, b, link, front), last);
      assert front + [last] == es;
    }
  }

  function IsStart(ix: GraphIndex, start: NodePattern, selected: seq<ObjectId>): ObjectId -> bool {
    (id: ObjectId) => id in selected && MatchesType(ix.nodes, id, start.typeName)
  }

  function BindStart(b: Binding, start: NodePattern): ObjectId -> Binding {
    (id: ObjectId) => b[start.alias := id]
  }

  lemma StartsNext(ix: GraphIndex, start: NodePattern, b: Binding, front: seq<ObjectId>, last: ObjectId,
                   selected: seq<ObjectId>)
    ensures Starts(ix, start, b, front + [last], selected) ==
            Starts(ix, start, b, front, selected) +
            if IsStart(ix, start, selected)(last) then [BindStart(b, start)(last)] else []
  {
    assert (front + [last])[..|front|] == front;
  }

  /** The first rows: one for each candidate of the type, in candidate order. */
  lemma {:induction false} StartsOnce(ix: GraphIndex, start: NodePattern, b: Binding, ids: seq<ObjectId>,
                                      selected: seq<ObjectId>)
    ensures Selects(ids, IsStart(ix, start, selected), BindStart(b, start), Starts(ix, start, b, ids, selected))
    decreases |ids|
  {
    if ids == [] {
      SelectsNone(IsStart(ix, start, selected), BindStart(b, start));
    } else {
      var front, last := ids[..|ids| - 1], ids[|ids| - 1];
      StartsOnce(ix, start, b, front, selected);
      var keep, make := IsStart(ix, start, selected), BindStart(b, start);
      var before := Starts(ix, start, b, front, selected);
      StartsNext(ix, start, b, front, last, selected);
      SelectsNext(front, keep, make, before, last);
      SameSelects(front + [last], keep, make, before + if keep(last) then [make(last)] else [], ids,
                  Starts(ix, start, b, ids, selected));
    }
  }

  /** A choice for a pattern: the position of a start candidate, then for each link the position of an edge. */
  type Choice = seq<nat>

  function StartIds(p: Pattern, b: Binding, selected: seq<ObjectId>): seq<ObjectId> {
    if p.start.alias in b then [b[p.start.alias]] else selected
  }

  /** The row a choice for the start and the first `n` links leads to, if every step of it is allowed. */
  function ChosenRow(ix: GraphIndex, p: Pattern, n: nat, b: Binding, selected: seq<ObjectId>,
                     c: Choice): Option<Binding>
    requires n <= |p.chain| && |c| == n + 1
  {
    if n == 0 then
      var ids := StartIds(p, b, selected);
      if c[0] < |ids| && ids[c[0]] in selected && MatchesType(ix.nodes, ids[c[0]], p.start.typeName)
      then Some(b[p.start.alias := ids[c[0]]]) else None
    else
      var before, link := ChosenRow(ix, p, n - 1, b, selected, c[..n]), p.chain[n - 1];
      if before.None? || PreviousAlias(p, n - 1) !in before.value then None
      else
        var es := EdgesAt(ix, link, before.value[PreviousAlias(p, n - 1)]);
        if c[n] < |es| && Accepts(ix.nodes, before.value, link, es[c[n]])
        then Some(before.value[link.node.alias := Far(link, es[c[n]])]) else None
  }

  /** The first choice differs from the second at some step, where it takes the earlier candidate or edge. */
  ghost predicate Earlier(c: Choice, d: Choice) {
    exists i :: 0 <= i < |c| && i < |d| && c[..i] == d[..i] && c[i] < d[i]
  }

  ghost predicate InOrder(cs: seq<Choice>) {
    forall i, j | 0 <= i < j < |cs| :: Earlier(cs[i], cs[j])
  }

  /** `rows` are the rows of the choices `cs`, one for one. */
  ghost predicate RowsOf(ix: GraphIndex, p: Pattern, n: nat, b: Binding, selected: seq<ObjectId>, cs: seq<Choice>,
                         rows: seq<Binding>)
    requires n <= |p.chain|
  {
    && |rows| == |cs|
    && forall k | 0 <= k < |cs| :: |cs[k]| == n + 1 && ChosenRow(ix, p, n, b, selected, cs[k]) == Some(rows[k])
  }

  /** All choices that lead to a row, each once and in order, and their rows. */
  ghost predicate OnceEach(ix: GraphIndex, p: Pattern, n: nat, b: Binding, selected: seq<ObjectId>, cs: seq<Choice>,
                           rows: seq<Binding>)
    requires n <= |p.chain|
  {
    && RowsOf(ix, p, n, b, selected, cs, rows) && InOrder(cs)
    && forall c: Choice | |c| == n + 1 && ChosenRow(ix, p, n, b, selected, c).Some? :: c in cs
  }

  lemma FirstChosen(ix: GraphIndex, p: Pattern, b: Binding, selected: seq<ObjectId>, i: nat)
    ensures var ids := StartIds(p, b, selected);
            ChosenRow(ix, p, 0, b, selected, [i]) ==
            if i < |ids| && IsStart(ix, p.start, selected)(ids[i]) then Some(BindStart(b, p.start)(ids[i])) else None
  {
  }

  function Alone(at: seq<nat>): seq<Choice> {
    seq(|at|, k requires 0 <= k < |at| => [at[k]])
  }

  lemma AloneInOrder(at: seq<nat>)
    requires Ascending(at)
    ensures InOrder(Alone(at)) && forall i: nat | i in at :: [i] in Alone(at)
  {
    var cs := Alone(at);
    forall i, j | 0 <= i < j < |cs| ensures Earlier(cs[i], cs[j]) {
      assert cs[i][..0] == cs[j][..0] && cs[i][0] < cs[j][0];
    }
    forall i: nat | i in at ensures [i] in cs {
      var k :| 0 <= k < |at| && at[k] == i;
      assert cs[k] == [i];
    }
  }

  lemma FirstOnce(ix: GraphIndex, p: Pattern, b: Binding, selected: seq<ObjectId>) returns (cs: seq<Choice>)
    ensures OnceEach(ix, p, 0, b, selected, cs, FirstBindings(ix, p, b, selected))
  {
    var ids, rows := StartIds(p, b, selected), FirstBindings(ix, p, b, selected);
    var keep, make := IsStart(ix, p.start, selected), BindStart(b, p.start);
    StartsOnce(ix, p.start, b, ids, selected);
    var at := PositionsOf(ids, keep, make, rows);
    cs := Alone(at);
    AloneInOrder(at);
    forall i: nat ensures ChosenRow(ix, p, 0, b, selected, [i]) == if i in at then Some(make(ids[i])) else None {
      FirstChosen(ix, p, b, selected, i);
    }
    forall c: Choice | |c| == 1 && ChosenRow(ix, p, 0, b, selected, c).Some? ensures c in cs {
      assert c == [c[0]];
    }
    forall k | 0 <= k < |cs| ensures ChosenRow(ix, p, 0, b, selected, cs[k]) == Some(rows[k]) {
      assert at[k] in at;
    }
  }

  /** A choice continued by an edge. */
  lemma ChosenNext(ix: GraphIndex, p: Pattern, n: nat, b: Binding, selected: seq<ObjectId>, c: Choice, y: Binding,
                   i: nat)
    requires 0 < n <= |p.chain| && |c| == n && ChosenRow(ix, p, n - 1, b, selected, c) == Some(y)
    ensures var link, row := p.chain[n - 1], ChosenRow(ix, p, n, b, selected, c + [i]);
            if PreviousAlias(p, n - 1) !in y then row.None?
            else
              var es := EdgesAt(ix, link, y[PreviousAlias(p, n - 1)]);
              row == if i < |es| && Accepts(ix.nodes, y, link, es[i]) then Some(y[link.node.alias := Far(link, es[i])])
                     else None
  {
    assert (c + [i])[..n] == c;
  }

  function Continued(c: Choice, at: seq<nat>): seq<Choice> {
    seq(|at|, k requires 0 <= k < |at| => c + [at[k]])
  }

  /** The continuations of one choice are all its edges that are accepted, in edge order. */
  lemma ContinuedOnce(ix: GraphIndex, p: Pattern, n: nat, b: Binding, selected: seq<ObjectId>, c: Choice, y: Binding)
    returns (at: seq<nat>)
    requires 0 < n <= |p.chain| && |c| == n && ChosenRow(ix, p, n - 1, b, selected, c) == Some(y)
    ensures RowsOf(ix, p, n, b, selected, Continued(c, at), Expand(ix, PreviousAlias(p, n - 1), p.chain[n - 1], y))
    ensures Ascending(at) && forall i: nat | ChosenRow(ix, p, n, b, selected, c + [i]).Some? :: i in at
  {
    var previous, link := PreviousAlias(p, n - 1), p.chain[n - 1];
    if previous !in y {
      at := [];
      forall i: nat ensures ChosenRow(ix, p, n, b, selected, c + [i]).None? {
        ChosenNext(ix, p, n, b, selected, c, y, i);
      }
    } else {
      var es := EdgesAt(ix, link, y[previous]);
      FollowOnce(ix.nodes, y, link, es);
      at := PositionsOf(es, AcceptedEdge(ix.nodes, y, link), BindFar(y, link), Follow(ix.nodes, y, link, es));
      forall i: nat ensures ChosenRow(ix, p, n, b, selected, c + [i]) ==
                            if i in at then Some(y[link.node.alias := Far(link, es[i])]) else None {
        ChosenNext(ix, p, n, b, selected, c, y, i);
      }
      forall k | 0 <= k < |at| ensures at[k] in at {
      }
    }
  }

  lemma EarlierStays(c: Choice, d: Choice, i: nat, j: nat)
    requires |c| == |d| && Earlier(c, d)
    ensures Earlier(c + [i], d + [j])
  {
    var k :| 0 <= k < |c| && c[..k] == d[..k] && c[k] < d[k];
    assert (c + [i])[..k] == c[..k] && (d + [j])[..k] == d[..k];
  }

  lemma EarlierEdge(c: Choice, i: nat, j: nat)
    requires i < j
    ensures Earlier(c + [i], c + [j])
  {
    assert (c + [i])[..|c|] == c == (c + [j])[..|c|];
  }

  /** What the choices `cs` lead to, one link further. */
  ghost predicate OneFurther(ix: GraphIndex, p: Pattern, n: nat, b: Binding, selected: seq<ObjectId>, cs: seq<Choice>,
                             ds: seq<Choice>, rows: seq<Binding>)
    requires n <= |p.chain|
  {
    forall u {:trigger Unfold(u)} | Unfold(u) :: LeadTo(ix, p, n, b, selected, cs, ds, rows)
  }

  ghost predicate LeadTo(ix: GraphIndex, p: Pattern, n: nat, b: Binding, selected: seq<ObjectId>, cs: seq<Choice>,
                             ds: seq<Choice>, rows: seq<Binding>)
    requires n <= |p.chain|
  {
    && RowsOf(ix, p, n, b, selected, ds, rows) && InOrder(ds)
    && (forall d | d in ds :: |d| == n + 1 && d[..n] in cs)
    && (forall d: Choice | |d| == n + 1 && ChosenRow(ix, p, n, b, selected, d).Some? && d[..n] in cs :: d in ds)
  }

  lemma ContinuedInOrder(n: nat, cs: seq<Choice>, c: Choice, ds: seq<Choice>, at: seq<nat>)
    requires |c| == n && Ascending(at) && InOrder(ds)
    requires forall k | 0 <= k < |cs| :: |cs[k]| == n && Earlier(cs[k], c)
    requires forall d | d in ds :: |d| == n + 1 && d[..n] in cs
    ensures InOrder(ds + Continued(c, at))
  {
    var more := Continued(c, at);
    forall i, j | 0 <= i < |ds| && 0 <= j < |more| ensures Earlier(ds[i], more[j]) {
      assert ds[i] in ds;
      ContinuesLater(n, cs, c, ds[i], at[j]);
    }
    forall i, j | 0 <= i < j < |more| ensures Earlier(more[i], more[j]) {
      EarlierEdge(c, at[i], at[j]);
    }
  }

  lemma RowsConcat(ix: GraphIndex, p: Pattern, n: nat, b: Binding, selected: seq<ObjectId>, ds: seq<Choice>,
                   rows: seq<Binding>, more: seq<Choice>, others: seq<Binding>)
    requires n <= |p.chain| && RowsOf(ix, p, n, b, selected, ds, rows) && RowsOf(ix, p, n, b, selected, more, others)
    ensures RowsOf(ix, p, n, b, selected, ds + more, rows + others)
  {
  }

  lemma ContinuesLater(n: nat, cs: seq<Choice>, c: Choice, d: Choice, j: nat)
    requires |c| == n && |d| == n + 1 && d[..n] in cs
    requires forall k | 0 <= k < |cs| :: |cs[k]| == n && Earlier(cs[k], c)
    ensures Earlier(d, c + [j])
  {
    var k :| 0 <= k < |cs| && cs[k] == d[..n];
    EarlierStays(cs[k], c, d[n], j);
    assert d == cs[k] + [d[n]];
  }

  lemma ContinuesOnly(n: nat, cs: seq<Choice>, c: Choice, ds: seq<Choice>, at: seq<nat>)
    requires |c| == n && forall d | d in ds :: |d| == n + 1 && d[..n] in cs
    ensures forall d | d in ds + Continued(c, at) :: |d| == n + 1 && d[..n] in cs + [c]
  {
    forall d | d in Continued(c, at) ensures |d| == n + 1 && d[..n] == c {
    }
  }

  lemma ContinuedFound(n: nat, c: Choice, at: seq<nat>, d: Choice)
    requires |c| == n && |d| == n + 1 && d[..n] == c && d[n] in at
    ensures d in Continued(c, at)
  {
    var k :| 0 <= k < |at| && at[k] == d[n];
    assert d == c + [d[n]] == Continued(c, at)[k];
  }

  /** One more choice continued: its continuations come after those of the earlier choices. */
  lemma FurtherNext(ix: GraphIndex, p: Pattern, n: nat, b: Binding, selected: seq<ObjectId>, cs: seq<Choice>, c: Choice,
                    y: Binding, ds: seq<Choice>, rows: seq<Binding>)
    returns (ds': seq<Choice>)
    requires 0 < n <= |p.chain| && OneFurther(ix, p, n, b, selected, cs, ds, rows)
    requires |c| == n && ChosenRow(ix, p, n - 1, b, selected, c) == Some(y)
    requires forall k | 0 <= k < |cs| :: |cs[k]| == n && Earlier(cs[k], c)
    ensures OneFurther(ix, p, n, b, selected, cs + [c], ds',
                       rows + Expand(ix, PreviousAlias(p, n - 1), p.chain[n - 1], y))
  {
    assert Unfold(true);
    var at := ContinuedOnce(ix, p, n, b, selected, c, y);
    ds' := ds + Continued(c, at);
    RowsConcat(ix, p, n, b, selected, ds, rows, Continued(c, at),
               Expand(ix, PreviousAlias(p, n - 1), p.chain[n - 1], y));
    ContinuedInOrder(n, cs, c, ds, at);
    ContinuesOnly(n, cs, c, ds, at);
    forall d: Choice | |d| == n + 1 && ChosenRow(ix, p, n, b, selected, d).Some? && d[..n] in cs + [c]
      ensures d in ds' {
      if d[..n] !in cs {
        LastFound(ix, p, n, b, selected, c, at, d);
      }
    }
  }

  lemma LastFound(ix: GraphIndex, p: Pattern, n: nat, b: Binding, selected: seq<ObjectId>, c: Choice, at: seq<nat>,
                  d: Choice)
    requires 0 < n <= |p.chain| && |c| == n && |d| == n + 1 && d[..n] == c
    requires forall i: nat | ChosenRow(ix, p, n, b, selected, c + [i]).Some? :: i in at
    requires ChosenRow(ix, p, n, b, selected, d).Some?
    ensures d in Continued(c, at)
  {
    assert d == c + [d[n]];
    ContinuedFound(n, c, at, d);
  }

  lemma FrontOf(ix: GraphIndex, p: Pattern, n: nat, b: Binding, selected: seq<ObjectId>, cs: seq<Choice>,
                rows: seq<Binding>, m: nat)
    requires n <= |p.chain| && RowsOf(ix, p, n, b, selected, cs, rows) && InOrder(cs) && m < |cs|
    ensures RowsOf(ix, p, n, b, selected, cs[..m], rows[..m]) && InOrder(cs[..m])
    ensures ChosenRow(ix, p, n, b, selected, cs[m]) == Some(rows[m])
    ensures forall k | 0 <= k < m :: |cs[..m][k]| == n + 1 && Earlier(cs[..m][k], cs[m])
  {
  }

  lemma {:induction false} FurtherAll(ix: GraphIndex, p: Pattern, n: nat, b: Binding, selected: seq<ObjectId>,
                                      cs: seq<Choice>, rows: seq<Binding>)
    returns (ds: seq<Choice>)
    requires 0 < n <= |p.chain| && RowsOf(ix, p, n - 1, b, selected, cs, rows) && InOrder(cs)
    ensures OneFurther(ix, p, n, b, selected, cs, ds,
                       ConcatMap(rows, Expander(ix, PreviousAlias(p, n - 1), p.chain[n - 1])))
    decreases |cs|
  {
    var f := Expander(ix, PreviousAlias(p, n - 1), p.chain[n - 1]);
    if cs == [] {
      ds := [];
    } else {
      var m := |cs| - 1;
      FrontOf(ix, p, n - 1, b, selected, cs, rows, m);
      var front, before := cs[..m], rows[..m];
      ds := FurtherAll(ix, p, n, b, selected, front, before);
      ds := FurtherNext(ix, p, n, b, selected, front, cs[m], rows[m], ds, ConcatMap(before, f));
      assert front + [cs[m]] == cs;
      assert ConcatMap(rows, f) == ConcatMap(before, f) + f(rows[m]);
    }
  }

  /**
   * The rows of a pattern are those of its choices: a choice of a start candidate and of an edge for each link that are
   * all allowed gives one row, no other choice gives any, and earlier choices come first.
   */
  lemma {:induction false} TraverseOnce(ix: GraphIndex, p: Pattern, n: nat, b: Binding, selected: seq<ObjectId>)
    returns (cs: seq<Choice>)
    requires n <= |p.chain|
    ensures OnceEach(ix, p, n, b, selected, cs, Traverse(ix, p, n, FirstBindings(ix, p, b, selected)))
    decreases n
  {
    if n == 0 {
      cs := FirstOnce(ix, p, b, selected);
    } else {
      var before := TraverseOnce(ix, p, n - 1, b, selected);
      var rows := Traverse(ix, p, n - 1, FirstBindings(ix, p, b, selected));
      cs := FurtherAll(ix, p, n, b, selected, before, rows);
      assert Unfold(true);
      forall c: Choice | |c| == n + 1 && ChosenRow(ix, p, n, b, selected, c).Some? ensures c in cs {
        assert ChosenRow(ix, p, n - 1, b, selected, c[..n]).Some?;
        assert c[..n] in before;
      }
    }
  }

  /** The whole pattern. */
  lemma MatchOneOnce(ix: GraphIndex, p: Pattern, b: Binding, selected: seq<ObjectId>)
    ensures exists cs :: OnceEach(ix, p, |p.chain|, b, selected, cs, MatchOne(ix, p, b, selected))
  {
    var cs := TraverseOnce(ix, p, |p.chain|, b, selected);
    assert OnceEach(ix, p, |p.chain|, b, selected, cs, MatchOne(ix, p, b, selected));
  }

  // Clauses: input by input.

  /** The rows of several inputs are the rows of each in turn. */
  lemma {:induction false} InputsInTurn(bs: seq<Binding>, f: Binding -> seq<Binding>)
    ensures ConcatMap(bs, f) == Flat(bs, f)
    decreases |bs|
  {
    if bs != [] {
      InputsInTurn(bs[..|bs| - 1], f);
    }
  }

  /**
   * A clause takes its inputs in turn. Each gives the rows of the pattern's choices from it, or itself once if the
   * clause is optional and there is none.
   */
  lemma ClauseOnce(ix: GraphIndex, c: Clause, inputs: seq<Binding>, selected: seq<ObjectId>)
    ensures exists blocks :: InBlocks(inputs, Matcher(ix, c, selected), ConcatMap(inputs, Matcher(ix, c, selected)),
                                      blocks)
    ensures forall b | b in inputs ::
              exists cs, rows ::
                && OnceEach(ix, c.pattern, |c.pattern.chain|, b, selected, cs, rows)
                && Matcher(ix, c, selected)(b) == if rows == [] && c.optional then [b] else rows
  {
    InputsInTurn(inputs, Matcher(ix, c, selected));
    var blocks := FlatInBlocks(inputs, Matcher(ix, c, selected));
    forall b | b in inputs
      ensures exists cs, rows ::
                && OnceEach(ix, c.pattern, |c.pattern.chain|, b, selected, cs, rows)
                && Matcher(ix, c, selected)(b) == if rows == [] && c.optional then [b] else rows
    {
      var cs := TraverseOnce(ix, c.pattern, |c.pattern.chain|, b, selected);
      assert OnceEach(ix, c.pattern, |c.pattern.chain|, b, selected, cs, MatchOne(ix, c.pattern, b, selected));
    }
  }
}
