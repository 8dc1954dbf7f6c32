/** The exact guard of unique and composite indexes. */
module GvqlExactTuples {
  import opened EncodedGraph
  import opened GvqlValues
  import opened GvqlExpressions
  import opened GvqlIndex
  import opened GvqlIndexKeys
  import opened GvqlAdvancedIndex
  import opened GvqlMatcher
  import opened GvqlPlanner
  import opened GvqlSelectionSafety
  import opened GvqlPlanEquivalence
  import opened GvqlPlanLimits
  import opened GvqlStatementLimits
  import opened GvqlExactGuards
  import opened Folding

  // Conjunctions of equalities.

  /** The predicate equates a path of the list with its constant. */
  ghost predicate GivenAt(alias: string, parameters: map<string, JsValue>, paths: seq<Path>, vs: seq<JsValue>,
                          p: Predicate, i: nat) {
    && i < |paths| == |vs|
    && p.operator.Equal? && OnAlias(p.left, alias) && p.right.Constant? && p.left.path.value == paths[i]
    && ConstantIn(parameters, p) == vs[i]
  }

  /** The conjunction equates exactly these plain paths, each with one constant. */
  ghost predicate Given(alias: string, parameters: map<string, JsValue>, paths: seq<Path>, vs: seq<JsValue>,
                        ps: seq<Predicate>) {
    && |paths| == |vs|
    && (forall path | path in paths :: PlainPath(path))
    && (forall i, j | 0 <= i < |paths| && 0 <= j < |paths| && paths[i] == paths[j] :: vs[i] == vs[j])
    && (forall p | p in ps :: exists i: nat :: GivenAt(alias, parameters, paths, vs, p, i))
    && (forall i: nat | i < |paths| :: SomeGives(alias, parameters, paths, vs, ps, i))
  }

  ghost predicate SomeGives(alias: string, parameters: map<string, JsValue>, paths: seq<Path>, vs: seq<JsValue>,
                            ps: seq<Predicate>, i: nat) {
    exists p | p in ps :: GivenAt(alias, parameters, paths, vs, p, i)
  }

  ghost predicate TupleEquals(node: EncodedNode, paths: seq<Path>, vs: seq<JsValue>)
    requires |paths| == |vs|
  {
    forall i | 0 <= i < |paths| :: StrictEquals(ReadValue(node, paths[i]), vs[i])
  }

  lemma {:induction false} ConjunctionDecides(cx: Context, b: Binding, c: Condition)
    requires Flatten(c, AllOf).Some? && forall p | p in Flatten(c, AllOf).value :: DecidePredicate(cx, b, p).Some?
    ensures Decide(cx, b, c) == Some(forall p | p in Flatten(c, AllOf).value :: DecidePredicate(cx, b, p) == Some(true))
  {
    match c
    case Test(p) => assert p in Flatten(c, AllOf).value;
    case And(l, r) =>
      ConjunctionDecides(cx, b, l);
      ConjunctionDecides(cx, b, r);
      assert forall p :: p in Flatten(c, AllOf).value <==> p in Flatten(l, AllOf).value || p in Flatten(r, AllOf).value;
  }

  lemma {:induction false} ConjunctionTotal(c: Condition)
    requires Flatten(c, AllOf).Some?
    requires forall p | p in Flatten(c, AllOf).value :: TotalExpression(p.left) && TotalExpression(p.right)
    ensures TotalCondition(c)
  {
    match c
    case Test(p) => assert p in Flatten(c, AllOf).value;
    case And(l, r) =>
      assert forall p :: p in Flatten(c, AllOf).value <==> p in Flatten(l, AllOf).value || p in Flatten(r, AllOf).value;
      ConjunctionTotal(l);
      ConjunctionTotal(r);
  }

  ghost predicate Equated(s: Search, start: NodePattern, paths: seq<Path>, vs: seq<JsValue>) {
    && s.where.Some? && Flatten(s.where.value, AllOf).Some?
    && Given(start.alias, s.cx.parameters, paths, vs, Flatten(s.where.value, AllOf).value)
  }

  lemma GivenDecides(s: Search, start: NodePattern, paths: seq<Path>, vs: seq<JsValue>, p: Predicate, i: nat,
                     id: ObjectId)
    requires GivenAt(start.alias, s.cx.parameters, paths, vs, p, i) && PlainPath(paths[i]) && id in s.cx.nodes
    ensures DecidePredicate(s.cx, One(start.alias, id), p) ==
            Some(StrictEquals(ReadValue(s.cx.nodes[id], paths[i]), vs[i]))
  {
    var b := One(start.alias, id);
    assert ReadPath(s.cx, b, start.alias, Some(paths[i])) == ReadValue(s.cx.nodes[id], paths[i]);
    assert Evaluate(s.cx, b, p.right) == Some(vs[i]);
  }

  /** WHERE accepts a node exactly when it has the tuple. */
  lemma TupleDecides(s: Search, start: NodePattern, paths: seq<Path>, vs: seq<JsValue>, id: ObjectId)
    requires Equated(s, start, paths, vs) && id in s.cx.nodes
    ensures Decided(s, One(start.alias, id)) == Some(TupleEquals(s.cx.nodes[id], paths, vs))
  {
    var ps, b := Flatten(s.where.value, AllOf).value, One(start.alias, id);
    forall p | p in ps ensures exists i: nat ::
      GivenAt(start.alias, s.cx.parameters, paths, vs, p, i) &&
      DecidePredicate(s.cx, b, p) == Some(StrictEquals(ReadValue(s.cx.nodes[id], paths[i]), vs[i]))
    {
      var i: nat :| GivenAt(start.alias, s.cx.parameters, paths, vs, p, i);
      GivenDecides(s, start, paths, vs, p, i, id);
    }
    ConjunctionDecides(s.cx, b, s.where.value);
    if forall p | p in ps :: DecidePredicate(s.cx, b, p) == Some(true) {
      forall i | 0 <= i < |paths| ensures StrictEquals(ReadValue(s.cx.nodes[id], paths[i]), vs[i]) {
        assert SomeGives(start.alias, s.cx.parameters, paths, vs, ps, i);
        var p :| p in ps && GivenAt(start.alias, s.cx.parameters, paths, vs, p, i);
        GivenDecides(s, start, paths, vs, p, i, id);
      }
    }
  }

  lemma EquatedTotal(s: Search, start: NodePattern, paths: seq<Path>, vs: seq<JsValue>)
    requires Equated(s, start, paths, vs)
    ensures TotalCondition(s.where.value) && !PlanningFails(s, start)
  {
    var ps := Flatten(s.where.value, AllOf).value;
    forall p | p in ps ensures TotalExpression(p.left) && TotalExpression(p.right) &&
           !ConstantFails(s.cx, start.alias, p) {
      var i: nat :| GivenAt(start.alias, s.cx.parameters, paths, vs, p, i);
    }
    ConjunctionTotal(s.where.value);
    assert Unfold(true);
  }

  lemma GivenEquates(cx: Context, alias: string, paths: seq<Path>, vs: seq<JsValue>, p: Predicate, j: nat)
    requires GivenAt(alias, cx.parameters, paths, vs, p, j)
    ensures Equates(cx, alias, p, paths[j]) && ConstantOf(cx, p) == Some(vs[j])
    ensures forall path | Equates(cx, alias, p, path) :: path == paths[j]
  {
  }

  /** The equalities of such a condition are exactly the given ones, whichever predicate counts. */
  lemma EquatedOne(cx: Context, alias: string, paths: seq<Path>, vs: seq<JsValue>, ps: seq<Predicate>, i: nat)
    requires Given(alias, cx.parameters, paths, vs, ps) && i < |paths|
    ensures paths[i] in Equalities(cx, alias, ps) && Equalities(cx, alias, ps)[paths[i]] == vs[i]
  {
    EqualitiesAreLast(cx, alias, ps, paths[i]);
    assert SomeGives(alias, cx.parameters, paths, vs, ps, i);
    var p :| p in ps && GivenAt(alias, cx.parameters, paths, vs, p, i);
    GivenEquates(cx, alias, paths, vs, p, i);
    var v := Equalities(cx, alias, ps)[paths[i]];
    var k: nat :| EquatesLast(cx, alias, ps, paths[i], k) && ConstantOf(cx, ps[k]) == Some(v);
    assert ps[k] in ps;
    var j: nat :| GivenAt(alias, cx.parameters, paths, vs, ps[k], j);
    GivenEquates(cx, alias, paths, vs, ps[k], j);
  }

  lemma EquatedFacts(s: Search, start: NodePattern, paths: seq<Path>, vs: seq<JsValue>)
    requires Equated(s, start, paths, vs)
    ensures TotalCondition(s.where.value) && !PlanningFails(s, start)
    ensures var equalities := Equalities(s.cx, start.alias, Flatten(s.where.value, AllOf).value);
            forall i | 0 <= i < |paths| :: paths[i] in equalities && equalities[paths[i]] == vs[i]
  {
    EquatedTotal(s, start, paths, vs);
    var equalities := Equalities(s.cx, start.alias, Flatten(s.where.value, AllOf).value);
    forall i | 0 <= i < |paths| ensures paths[i] in equalities && equalities[paths[i]] == vs[i] {
      EquatedOne(s.cx, start.alias, paths, vs, Flatten(s.where.value, AllOf).value, i);
    }
  }

  // The selection of one definition.

  predicate OffersTuple(start: NodePattern, d: Definition) {
    && TypeFits(d, start.typeName)
    && ((d.kind.UniqueKey? && d.paths != []) || (d.kind.Composite? && |d.paths| >= 2))
  }

  function FirstOf(ids: seq<ObjectId>): ObjectId {
    if ids == [] then 0 else ids[0]
  }

  lemma NoMembers(ids: seq<ObjectId>)
    requires FirstOf(ids) !in ids
    ensures ids == []
  {
    assert ids == [] || FirstOf(ids) in ids;
  }

  /** Nothing is configured, so no property is served by buckets. */
  lemma NoProperties(s: Search, typeName: Option<string>, item: Indexable)
    requires exists e, order :: IndexOf(s.ix, e, order, NOTHING_CONFIGURED, StableKeys(s.cx.runtime))
    requires PlainPath(item.path)
    ensures SelectItem(s, typeName, item) == Selection(FullScan, Elements(s.ix.order))
  {
    var e, order :| IndexOf(s.ix, e, order, NOTHING_CONFIGURED, StableKeys(s.cx.runtime));
    forall key ensures key !in s.ix.byProperty {
      var id := FirstOf(Bucket(s.ix.byProperty, key));
      assert id in e.nodes ==> !NodeIndexedUnder(NOTHING_CONFIGURED, StableKeys(s.cx.runtime), e.nodes[id], key);
      NoMembers(Bucket(s.ix.byProperty, key));
    }
    assert forall key :: !SomeMarks(order, e.nodes, NOTHING_CONFIGURED, key);
  }

  lemma {:induction false} OnlyFullScans(ss: seq<Selection>)
    requires forall x | x in ss :: x.source.FullScan?
    ensures NotFullScan(ss) == []
    decreases |ss|
  {
    if ss != [] {
      assert ss[|ss| - 1] in ss;
      OnlyFullScans(ss[..|ss| - 1]);
    }
  }

  ghost predicate TupleSearch(s: Search, start: NodePattern, d: Definition, vs: seq<JsValue>) {
    && Prepared(s) && s.advanced.Some? && s.advanced.value.definitions == [d] && d.paths != []
    && (d.kind.UniqueKey? || d.kind.Composite?) && Equated(s, start, d.paths, vs)
    && exists e, order :: IndexOf(s.ix, e, order, NOTHING_CONFIGURED, StableKeys(s.cx.runtime))
  }

  lemma TupleSelected(s: Search, start: NodePattern, d: Definition, vs: seq<JsValue>)
    requires TupleSearch(s, start, d, vs)
    ensures var equalities := Equalities(s.cx, start.alias, Flatten(s.where.value, AllOf).value);
            var selected := SelectTuple(s.cx, s.advanced.value, start.typeName, equalities, d);
            && (selected.Some? <==> OffersTuple(start, d))
            && (selected.Some? ==> forall x :: x in AdvancedSelections(s, start) <==> x == selected.value)
            && (selected.None? ==> AdvancedSelections(s, start) == [])
            && (forall path | path in d.paths :: path in equalities) && Looked(equalities, d.paths) == vs
  {
    var ps := Flatten(s.where.value, AllOf).value;
    var equalities := Equalities(s.cx, start.alias, ps);
    EquatedFacts(s, start, d.paths, vs);
    assert Looked(equalities, d.paths) == vs;
    OnlyTuple(s, start, d);
    if AdvancedSelections(s, start) != [] {
      assert AdvancedSelections(s, start)[0] in AdvancedSelections(s, start);
    }
  }

  /** Unique and composite definitions offer nothing for single predicates. */
  lemma OnlyTuple(s: Search, start: NodePattern, d: Definition)
    requires s.advanced.Some? && s.advanced.value.definitions == [d] && (d.kind.UniqueKey? || d.kind.Composite?)
    requires s.where.Some? && Flatten(s.where.value, AllOf).Some?
    ensures forall x :: x in AdvancedSelections(s, start) <==>
              SelectTuple(s.cx, s.advanced.value, start.typeName,
                          Equalities(s.cx, start.alias, Flatten(s.where.value, AllOf).value), d) == Some(x)
  {
    forall x ensures x in AdvancedSelections(s, start) <==>
              SelectTuple(s.cx, s.advanced.value, start.typeName,
                          Equalities(s.cx, start.alias, Flatten(s.where.value, AllOf).value), d) == Some(x)
    {
      SelectionsOffered(s, start, x);
      assert forall p :: SelectPredicate(s.cx, s.advanced.value, start, p, d).None?;
    }
  }

  /** The nodes a tuple selection finds. */
  lemma TupleFound(s: Search, start: NodePattern, d: Definition, vs: seq<JsValue>, id: ObjectId)
    requires TupleSearch(s, start, d, vs) && OffersTuple(start, d)
    ensures var equalities := Equalities(s.cx, start.alias, Flatten(s.where.value, AllOf).value);
            var selected := SelectTuple(s.cx, s.advanced.value, start.typeName, equalities, d);
            selected.Some? &&
            (id in selected.value.ids <==>
              && id in s.cx.nodes && Lists(s.cx.runtime, d, s.cx.nodes[id])
              && TupleKey(s.cx.runtime, ReadValues(s.cx.nodes[id], d.paths)) == TupleKey(s.cx.runtime, vs))
  {
    assert Unfold(true);
    TupleSelected(s, start, d, vs);
    var key := TupleKey(s.cx.runtime, vs);
    if d.kind.Composite? {
      InBucket(s, d, key, id);
    } else {
      OwnsKey(s, d, key, id);
    }
  }

  lemma OwnsKey(s: Search, d: Definition, key: string, id: ObjectId)
    requires SearchReady(s) && s.advanced.Some? && s.advanced.value.definitions == [d] && d.kind.UniqueKey?
    ensures var at := Slot(UniqueKey, d.name, key);
            at in s.advanced.value.unique && s.advanced.value.unique[at] == id <==>
            id in s.cx.nodes && ClaimsKey(s.cx.runtime, d, s.cx.nodes[id], key)
  {
    var at, done := Slot(UniqueKey, d.name, key), Pairs(s.ix.order, [d]);
    assert id in s.cx.nodes ==> (id, d) in done;
    assert at in s.advanced.value.unique && s.advanced.value.unique[at] == id <==>
           ClaimedBy(s.cx.runtime, s.cx.nodes, done, at, id);
  }

  /** Beside full scans only the advanced selections narrow the candidates. */
  lemma CombinedWithScans(advanced: seq<Selection>, properties: seq<Selection>, all: set<ObjectId>, id: ObjectId)
    requires properties != [] && (forall x | x in properties :: x == Selection(FullScan, all)) && id in all
    ensures id in Combined(AllOf, advanced, properties) <==> forall x | x in advanced :: id in x.ids
  {
    OnlyFullScans(properties);
    assert advanced + [] == advanced;
    if advanced == [] {
      assert properties[0] in properties;
    } else {
      assert advanced[0] in advanced;
    }
  }

  /** What the statement's planning allows: the tuple selection, or everything. */
  lemma TupleAllowed(s: Search, start: NodePattern, d: Definition, vs: seq<JsValue>, id: ObjectId)
    requires TupleSearch(s, start, d, vs) && id in s.cx.nodes
    ensures Allowed(s, start).Some?
    ensures var equalities := Equalities(s.cx, start.alias, Flatten(s.where.value, AllOf).value);
            var selected := SelectTuple(s.cx, s.advanced.value, start.typeName, equalities, d);
            id in Allowed(s, start).value <==> (selected.Some? ==> id in selected.value.ids)
  {
    InOrder(s, id);
    var indexed := EqualitiesIndexed(s, start, d, vs);
    TupleSelected(s, start, d, vs);
    var advanced, properties := AdvancedSelections(s, start), SelectItems(s, start.typeName, indexed.items);
    assert Allowed(s, start) == Some(Combined(AllOf, advanced, properties));
    CombinedWithScans(advanced, properties, Elements(s.ix.order), id);
  }

  lemma InOrder(s: Search, id: ObjectId)
    requires Prepared(s) && id in s.cx.nodes
    ensures id in Elements(s.ix.order)
  {
    assert Unfold(true);
  }

  /** All equalities could be served by property buckets, and none is. */
  lemma EqualitiesIndexed(s: Search, start: NodePattern, d: Definition, vs: seq<JsValue>)
    returns (indexed: IndexableSet)
    requires TupleSearch(s, start, d, vs)
    ensures IndexableSetOf(s.cx, start.alias, s.where.value) == Some(indexed) && indexed.mode.AllOf? &&
            indexed.items != []
    ensures forall x | x in SelectItems(s, start.typeName, indexed.items) ::
            x == Selection(FullScan, Elements(s.ix.order))
  {
    var ps := Flatten(s.where.value, AllOf).value;
    FlattenedSome(s.where.value, AllOf);
    assert SomeGives(start.alias, s.cx.parameters, d.paths, vs, ps, 0);
    var items := IndexableItems(s.cx, start.alias, ps);
    ItemsServed(s.cx, start.alias, ps);
    forall p | p in ps ensures Serves(s.cx, start.alias, p) {
      var i: nat :| GivenAt(start.alias, s.cx.parameters, d.paths, vs, p, i);
    }
    NotAnyOf(s.where.value);
    assert ps[0] in ps && IndexableItem(s.cx, start.alias, ps[0]).value in items;
    indexed := IndexableSet(AllOf, items);
    forall k | 0 <= k < |items| ensures SelectItem(s, start.typeName, items[k]) ==
           Selection(FullScan, Elements(s.ix.order)) {
      assert items[k] in items;
      var p :| p in ps && IndexableItem(s.cx, start.alias, p) == Some(items[k]);
      var i: nat :| GivenAt(start.alias, s.cx.parameters, d.paths, vs, p, i);
      assert d.paths[i] in d.paths;
      NoProperties(s, start.typeName, items[k]);
    }
  }

  lemma NotAnyOf(c: Condition)
    requires Flatten(c, AllOf).Some?
    ensures ChosenMode(c) == Some(AllOf)
  {
  }

  /** A node with the tuple is missed exactly when the definition offers a selection and does not list the node. */
  lemma TupleMissedIff(s: Search, start: NodePattern, d: Definition, vs: seq<JsValue>, id: ObjectId)
    requires TupleSearch(s, start, d, vs)
    ensures Missed(s, start, id) <==>
            && id in s.cx.nodes && TypeIs(s.cx.nodes[id], start.typeName) && TupleEquals(s.cx.nodes[id], d.paths, vs)
            && OffersTuple(start, d) && !Lists(s.cx.runtime, d, s.cx.nodes[id])
  {
    if id in s.cx.nodes {
      assert Unfold(true);
      TupleDecides(s, start, d.paths, vs, id);
      TupleAllowed(s, start, d, vs, id);
      TupleSelected(s, start, d, vs);
      if OffersTuple(start, d) {
        TupleFound(s, start, d, vs, id);
        if TupleEquals(s.cx.nodes[id], d.paths, vs) {
          EqualTuplesShareKey(s.cx.runtime, ReadValues(s.cx.nodes[id], d.paths), vs);
        }
      }
    }
  }

  // The guard.

  /** Some value equals each constant. */
  predicate Satisfiable(vs: seq<JsValue>) {
    forall v | v in vs :: !IsObject(v) && v != JsSpecial(NotANumber)
  }

  /** The guard when some node can have the tuple. */
  predicate TupleCovered(start: NodePattern, d: Definition, vs: seq<JsValue>) {
    && CoversType(d, start.typeName) && PartialAlways(d)
    && (d.sparse ==> forall v | v in vs :: !IsNullish(v))
    && ((forall v | v in vs :: v == JsUndefined) ==> start.typeName.Some?)
  }

  ghost predicate TupleLost(rt: Runtime, start: NodePattern, d: Definition, vs: seq<JsValue>, node: EncodedNode)
    requires |d.paths| == |vs|
  {
    TypeIs(node, start.typeName) && TupleEquals(node, d.paths, vs) && !Lists(rt, d, node)
  }

  predicate PartialApart(d: Definition) {
    forall path | path in d.paths :: PartialElsewhere(d, path)
  }

  /** An object with the tuple, and more properties. */
  function TupleNode(typeName: Option<string>, paths: seq<Path>, vs: seq<JsValue>, more: seq<Property>): EncodedNode
    requires |paths| == |vs| && Satisfiable(vs)
  {
    ObjectNode(typeName, seq(|paths|, i requires 0 <= i < |paths| => Property(paths[i].text, Stored(vs, i))) + more)
  }

  function Stored(vs: seq<JsValue>, i: nat): (e: EncodedValue)
    requires i < |vs| && Satisfiable(vs)
    ensures EncodedToJs(e) == vs[i]
  {
    assert vs[i] in vs;
    JsToEncoded(vs[i]).value
  }

  lemma TupleNodeReads(typeName: Option<string>, paths: seq<Path>, vs: seq<JsValue>, more: seq<Property>)
    requires |paths| == |vs| && Satisfiable(vs) && forall path | path in paths :: PlainPath(path)
    requires forall i, j | 0 <= i < |paths| && 0 <= j < |paths| && paths[i] == paths[j] :: vs[i] == vs[j]
    requires forall i, k | 0 <= i < |paths| && 0 <= k < |more| :: more[k].name != paths[i].text
    ensures forall i | 0 <= i < |paths| :: ReadValue(TupleNode(typeName, paths, vs, more), paths[i]) == vs[i]
  {
    var props := TupleNode(typeName, paths, vs, more).props;
    forall i | 0 <= i < |paths| ensures ReadValue(TupleNode(typeName, paths, vs, more), paths[i]) == vs[i] {
      FoundProperty(props, paths[i].text);
      assert props[i].name == paths[i].text;
      var j :| 0 <= j < |props| && props[j] == Property(paths[i].text, FindProperty(props, paths[i].text).value);
      assert j < |paths|;
      assert paths[j] in paths && paths[i] in paths && paths[j] == paths[i];
    }
  }

  lemma {:induction false} FindPast(props: seq<Property>, more: seq<Property>, name: string)
    requires forall k | 0 <= k < |props| :: props[k].name != name
    ensures FindProperty(props + more, name) == FindProperty(more, name)
    decreases |props|
  {
    if props == [] {
      assert props + more == more;
    } else {
      assert (props + more)[1..] == props[1..] + more;
      FindPast(props[1..], more, name);
    }
  }

  lemma TupleCoverageNeeded(rt: Runtime, start: NodePattern, d: Definition, vs: seq<JsValue>)
    requires |d.paths| == |vs| && d.paths != [] && !d.kind.Computed? && PartialApart(d) && Satisfiable(vs)
    requires forall path | path in d.paths :: PlainPath(path)
    requires forall i, j | 0 <= i < |d.paths| && 0 <= j < |d.paths| && d.paths[i] == d.paths[j] :: vs[i] == vs[j]
    requires forall node :: !TupleLost(rt, start, d, vs, node)
    ensures TupleCovered(start, d, vs)
  {
    var node := TupleNode(start.typeName, d.paths, vs, []);
    TupleNodeReads(start.typeName, d.paths, vs, []);
    assert !TupleLost(rt, start, d, vs, node);
    assert TupleEquals(node, d.paths, vs) by {
      assert forall i | 0 <= i < |vs| :: vs[i] in vs;
    }
    assert DefinedValues(rt, node, d) == vs;
    if (forall v | v in vs :: v == JsUndefined) && start.typeName.None? {
      UndefinedNeedsType(rt, start, d, vs);
    }
    if !PartialAlways(d) {
      PartialNeeded(rt, start, d, vs);
    }
  }

  lemma UndefinedNeedsType(rt: Runtime, start: NodePattern, d: Definition, vs: seq<JsValue>)
    requires |d.paths| == |vs| && (forall v | v in vs :: v == JsUndefined) && start.typeName.None?
    requires forall path | path in d.paths :: PlainPath(path)
    ensures TupleLost(rt, start, d, vs, ArrayNode([]))
  {
    assert forall i | 0 <= i < |vs| :: vs[i] in vs && d.paths[i] in d.paths;
  }

  lemma PartialNeeded(rt: Runtime, start: NodePattern, d: Definition, vs: seq<JsValue>)
    requires |d.paths| == |vs| && d.paths != [] && PartialApart(d) && Satisfiable(vs) && !PartialAlways(d)
    requires forall path | path in d.paths :: PlainPath(path)
    requires forall i, j | 0 <= i < |d.paths| && 0 <= j < |d.paths| && d.paths[i] == d.paths[j] :: vs[i] == vs[j]
    ensures exists node :: TupleLost(rt, start, d, vs, node)
  {
    var c := d.partial.value;
    var more := Counterexample(c);
    assert forall i | 0 <= i < |d.paths| :: d.paths[i] in d.paths && c.path.text != d.paths[i].text;
    var node := TupleNode(start.typeName, d.paths, vs, more);
    TupleNodeReads(start.typeName, d.paths, vs, more);
    FindPast(node.props[..|d.paths|], more, c.path.text);
    assert node.props == node.props[..|d.paths|] + more;
    assert !MatchesPartial(node, c);
    assert TupleLost(rt, start, d, vs, node);
  }

  lemma TupleCoverageSuffices(rt: Runtime, start: NodePattern, d: Definition, vs: seq<JsValue>, node: EncodedNode)
    requires |d.paths| == |vs| && d.paths != [] && !d.kind.Computed? && TypeFits(d, start.typeName)
    requires forall path | path in d.paths :: PlainPath(path)
    requires Satisfiable(vs) ==> TupleCovered(start, d, vs)
    ensures !TupleLost(rt, start, d, vs, node)
  {
    if TypeIs(node, start.typeName) && TupleEquals(node, d.paths, vs) {
      forall i | 0 <= i < |vs| ensures !IsObject(vs[i]) && vs[i] != JsSpecial(NotANumber) {
        assert StrictEquals(ReadValue(node, d.paths[i]), vs[i]);
      }
      assert Satisfiable(vs);
      if !node.ObjectNode? {
        forall i | 0 <= i < |vs| ensures vs[i] == JsUndefined {
          assert d.paths[i] in d.paths && StrictEquals(ReadValue(node, d.paths[i]), vs[i]);
        }
      }
      forall i | 0 <= i < |vs| ensures IsNullish(ReadValue(node, d.paths[i])) == IsNullish(vs[i]) {
        assert StrictEquals(ReadValue(node, d.paths[i]), vs[i]);
      }
      assert forall i | 0 <= i < |vs| :: vs[i] in vs;
    }
  }

  // The statement.

  lemma TupleSame(s: Search, start: NodePattern, d: Definition, vs: seq<JsValue>)
    requires TupleSearch(s, start, d, vs)
    ensures RunPlanned(s, OneClause(start)) == RunAll(s, OneClause(start)) <==>
            (OffersTuple(start, d) ==>
              forall id | id in s.cx.nodes :: !TupleLost(s.cx.runtime, start, d, vs, s.cx.nodes[id]))
  {
    EquatedFacts(s, start, d.paths, vs);
    forall id ensures Missed(s, start, id) <==>
                      id in s.cx.nodes && OffersTuple(start, d) && TupleLost(s.cx.runtime, start, d, vs, s.cx.nodes[id])
    {
      TupleMissedIff(s, start, d, vs, id);
    }
    StatementExact(s, start);
  }

  lemma TupleLostShows(rt: Runtime, parameters: map<string, JsValue>, start: NodePattern, where: Condition,
                       d: Definition,
                       vs: seq<JsValue>, node: EncodedNode)
    requires HostLanguage(rt) && (d.kind.UniqueKey? || d.kind.Composite?) && d.paths != []
    requires Flatten(where, AllOf).Some? && Given(start.alias, parameters, d.paths, vs, Flatten(where, AllOf).value)
    requires OffersTuple(start, d) && TupleLost(rt, start, d, vs, node)
    ensures !AlwaysSame(rt, parameters, start, where, NOTHING_CONFIGURED, [d])
  {
    var s := OneNodeSearch(rt, parameters, where, NOTHING_CONFIGURED, [d], node);
    BuiltIsPrepared(s, Envelope(Null, map[0 := node]), [0], NOTHING_CONFIGURED, [d]);
    assert TupleSearch(s, start, d, vs);
    TupleSame(s, start, d, vs);
    assert !TupleLost(s.cx.runtime, start, d, vs, s.cx.nodes[0]) <==> false;
  }

  /**
   * A unique or composite index keeps the rows of every graph exactly when, if any node can have the tuple at all, the
   * definition covers the pattern's nodes, a sparse one is not asked for null, and not all constants are undefined for
   * a pattern without type.
   */
  lemma TupleExact(rt: Runtime, parameters: map<string, JsValue>, start: NodePattern, where: Condition, d: Definition,
                   vs: seq<JsValue>)
    requires HostLanguage(rt) && (d.kind.UniqueKey? || d.kind.Composite?) && d.paths != [] && PartialApart(d)
    requires Flatten(where, AllOf).Some? && Given(start.alias, parameters, d.paths, vs, Flatten(where, AllOf).value)
    ensures AlwaysSame(rt, parameters, start, where, NOTHING_CONFIGURED, [d]) <==>
            (OffersTuple(start, d) && Satisfiable(vs) ==> TupleCovered(start, d, vs))
  {
    if OffersTuple(start, d) && Satisfiable(vs) && !TupleCovered(start, d, vs) {
      if forall node :: !TupleLost(rt, start, d, vs, node) {
        TupleCoverageNeeded(rt, start, d, vs);
      }
      var node :| TupleLost(rt, start, d, vs, node);
      TupleLostShows(rt, parameters, start, where, d, vs, node);
    } else {
      forall s: Search, e: Envelope, order: seq<ObjectId>
        | SearchOver(s, e, order, NOTHING_CONFIGURED, [d], rt, parameters, where)
        ensures RunPlanned(s, OneClause(start)) == RunAll(s, OneClause(start))
      {
        BuiltIsPrepared(s, e, order, NOTHING_CONFIGURED, [d]);
        assert TupleSearch(s, start, d, vs);
        TupleSame(s, start, d, vs);
        forall id | id in s.cx.nodes && OffersTuple(start, d) ensures !TupleLost(rt, start, d, vs, s.cx.nodes[id]) {
          TupleCoverageSuffices(rt, start, d, vs, s.cx.nodes[id]);
        }
      }
    }
  }
}
