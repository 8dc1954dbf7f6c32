/** The exact guard of property buckets. */
module GvqlExactProperties {
  // The exact guard of property buckets, on graphs whose names do not contain the key separator.

  import opened EncodedGraph
  import opened GvqlValues
  import opened GvqlExpressions
  import opened GvqlIndex
  import opened GvqlIndexKeys
  import opened GvqlAdvancedIndex
  import opened GvqlMatcher
  import opened GvqlPlanner
  import opened GvqlSelectionSafety
  import opened GvqlPlanEquivalence
  import opened GvqlPlanLimits
  import opened GvqlBuiltIndexes
  import opened GvqlStatementLimits
  import opened GvqlExactGuards
  import opened Folding

  ghost predicate AlwaysSameClean(rt: Runtime, parameters: map<string, JsValue>, start: NodePattern, where: Condition,
                                  mode: PropertyMode) {
    forall s: Search, e: Envelope, order: seq<ObjectId>
      | SearchOver(s, e, order, mode, [], rt, parameters, where) && CleanGraph(e.nodes) ::
      RunPlanned(s, OneClause(start)) == RunAll(s, OneClause(start))
  }

  /** `alias.path = constant` or `alias.path IN constants`. */
  predicate Membership(alias: string, p: Predicate) {
    Simple(alias, p) && !p.left.Call? && (p.operator.Equal? || p.operator.In?)
  }

  /** The values a property bucket is looked up for, if the comparison can be served. */
  function Values(parameters: map<string, JsValue>, p: Predicate): (vs: Option<seq<JsValue>>)
    requires p.right.Constant?
    ensures vs.Some? ==> vs.value != []
  {
    var v := ConstantIn(parameters, p);
    if p.operator.Equal? then Some([v])
    else if v.JsArray? && v.items != [] then Some(v.items)
    else None
  }

  /** Some type has the property indexed. */
  ghost predicate Indexed(mode: PropertyMode, path: string) {
    exists t :: Clean(TypeText(t)) && ShouldIndex(mode, t, path)
  }

  /** Every type of the pattern has the property indexed. */
  ghost predicate IndexedThroughout(mode: PropertyMode, typeName: Option<string>, path: string) {
    forall t | Clean(TypeText(t)) && (typeName.None? || t == typeName) :: ShouldIndex(mode, t, path)
  }

  lemma ThroughoutIsComplete(ix: GraphIndex, typeName: Option<string>, path: string)
    requires Clean(TypeText(typeName))
    ensures IndexedThroughout(ix.mode, typeName, path) <==> PropertyComplete(ix, typeName, path)
  {
    if typeName.None? {
      assert IndexedThroughout(ix.mode, typeName, path) ==> ShouldIndex(ix.mode, None, path);
    }
  }

  /** Any path of the alias compared by `=` or `IN`, virtual paths included. */
  predicate OnPath(alias: string, p: Predicate) {
    OnAlias(p.left, alias) && p.right.Constant? && (p.operator.Equal? || p.operator.In?)
  }

  ghost predicate PropertySearch(s: Search, start: NodePattern, p: Predicate) {
    && s.advanced.None? && s.where == Some(Test(p)) && OnPath(start.alias, p)
    && Values(s.cx.parameters, p).Some?
  }

  function ItemOf(parameters: map<string, JsValue>, p: Predicate): Indexable
    requires p.right.Constant? && Values(parameters, p).Some? && p.left.PathOf? && p.left.path.Some?
  {
    Indexable(p.left.path.value, Values(parameters, p).value)
  }

  lemma OneItem(s: Search, start: NodePattern, p: Predicate)
    requires PropertySearch(s, start, p)
    ensures IndexableItem(s.cx, start.alias, p) == Some(ItemOf(s.cx.parameters, p))
    ensures Allowed(s, start) == Some(SelectItem(s, start.typeName, ItemOf(s.cx.parameters, p)).ids)
    ensures !PlanningFails(s, start)
  {
    var item := ItemOf(s.cx.parameters, p);
    assert [p][..0] == [];
    assert IndexableItems(s.cx, start.alias, [p]) == [item];
    var properties := SelectItems(s, start.typeName, [item]);
    assert properties == [SelectItem(s, start.typeName, item)];
    assert Intersection(properties) == properties[0].ids;
    assert Unfold(true);
  }

  /** A missing value passes exactly when undefined is one of the values. */
  lemma UndefinedPasses(rt: Runtime, parameters: map<string, JsValue>, p: Predicate)
    requires p.right.Constant? && !p.left.Call? && Values(parameters, p).Some? && (p.operator.Equal? || p.operator.In?)
    ensures Passes(rt, parameters, p, JsUndefined) <==> JsUndefined in Values(parameters, p).value
  {
    var v := ConstantIn(parameters, p);
    if p.operator.In? {
      if JsUndefined in v.items {
        var i :| 0 <= i < |v.items| && v.items[i] == JsUndefined;
        assert SameValueZero(v.items[i], JsUndefined);
      } else {
        forall i | 0 <= i < |v.items| ensures !SameValueZero(v.items[i], JsUndefined) {
          assert v.items[i] in v.items;
        }
      }
    }
  }

  // An index that is not there.

  lemma AvailableIsIndexed(s: Search, e: Envelope, order: seq<ObjectId>, mode: PropertyMode, start: NodePattern,
                           item: Indexable)
    requires SearchReady(s) && BuiltFor(s, e, order, mode, []) && CleanGraph(e.nodes)
    requires Clean(item.path.text) && Clean(TypeText(start.typeName))
    requires PropertyAvailable(s.ix, item.path.text, Keys(s.cx.runtime, start.typeName, item))
    ensures Indexed(mode, item.path.text)
  {
    var keys := Keys(s.cx.runtime, start.typeName, item);
    if mode.AllProperties? {
      assert Clean("*");
      assert ShouldIndex(mode, None, item.path.text) && Clean(TypeText(None));
    } else if key :| key in keys && key in s.ix.byProperty {
      var i :| 0 <= i < |keys| && keys[i] == key;
      var id := Bucket(s.ix.byProperty, key)[0];
      assert id in Bucket(s.ix.byProperty, key);
      var p := BucketWitness(s, start.typeName, item.path.text, StableKey(s.cx.runtime, item.values[i]), id);
      assert Clean(TypeText(s.cx.nodes[id].typeName)) by { assert Clean("*"); }
    } else {
      MarkIsIndexed(order, e.nodes, mode, item.path.text);
    }
  }

  lemma MarkIsIndexed(order: seq<ObjectId>, nodes: map<ObjectId, EncodedNode>, mode: PropertyMode, path: string)
    requires CleanGraph(nodes) && Clean(path) && SomeMarks(order, nodes, mode, PropertyKey(None, path))
    ensures Indexed(mode, path)
  {
    var i :| 0 <= i < |order| && order[i] in nodes && NodeMarks(nodes[order[i]], mode, PropertyKey(None, path));
    var node := nodes[order[i]];
    var j :| 0 <= j < |node.props| && MarkedBy(mode, node.typeName, node.props[j], PropertyKey(None, path));
    var p := node.props[j];
    assert Clean("*") && Clean(TypeText(node.typeName)) && TypeOf(node) == node.typeName;
    if PropertyKey(None, path) == PropertyKey(None, p.name) {
      SplitAtSeparator("*", path, "*", p.name);
    } else {
      SplitAtSeparator("*", path, node.typeName.value, p.name);
    }
  }

  // The guard.

  ghost predicate PropertyGuard(rt: Runtime, parameters: map<string, JsValue>, start: NodePattern, p: Predicate,
                                mode: PropertyMode)
    requires Membership(start.alias, p)
  {
    Values(parameters, p).Some? && Indexed(mode, p.left.path.value.text) ==>
      && JsUndefined !in Values(parameters, p).value
      && (CanPass(rt, parameters, p) ==> IndexedThroughout(mode, start.typeName, p.left.path.value.text))
  }

  lemma GuardIsUsable(s: Search, e: Envelope, order: seq<ObjectId>, mode: PropertyMode, start: NodePattern,
                      p: Predicate)
    requires SearchReady(s) && BuiltFor(s, e, order, mode, []) && CleanGraph(e.nodes) && Membership(start.alias, p)
    requires Clean(p.left.path.value.text) && Clean(TypeText(start.typeName)) && Values(s.cx.parameters, p).Some?
    requires PropertyGuard(s.cx.runtime, s.cx.parameters, start, p, mode) && CanPass(s.cx.runtime, s.cx.parameters, p)
    ensures var item := ItemOf(s.cx.parameters, p);
            PropertyAvailable(s.ix, item.path.text, Keys(s.cx.runtime, start.typeName, item)) ==>
            ItemUsable(s, start.typeName, item)
  {
    var item := ItemOf(s.cx.parameters, p);
    if PropertyAvailable(s.ix, item.path.text, Keys(s.cx.runtime, start.typeName, item)) {
      AvailableIsIndexed(s, e, order, mode, start, item);
      ThroughoutIsComplete(s.ix, start.typeName, item.path.text);
    }
  }

  /** A guarded search misses nothing. */
  lemma GuardedMissesNothing(s: Search, e: Envelope, order: seq<ObjectId>, mode: PropertyMode, start: NodePattern,
                             p: Predicate,
                             id: ObjectId)
    requires Prepared(s) && BuiltFor(s, e, order, mode, []) && CleanGraph(e.nodes) && PropertySearch(s, start, p) &&
             Membership(start.alias, p)
    requires Clean(p.left.path.value.text) && Clean(TypeText(start.typeName))
    requires PropertyGuard(s.cx.runtime, s.cx.parameters, start, p, mode) && Accepted(s, start, id)
    ensures id in SelectItem(s, start.typeName, ItemOf(s.cx.parameters, p)).ids
  {
    assert Unfold(true);
    var item := ItemOf(s.cx.parameters, p);
    SimpleDecides(s, start, p, id);
    var value := ReadIsEncoded(s.cx.nodes[id], item.path);
    assert Passes(s.cx.runtime, s.cx.parameters, p, EncodedToJs(value));
    GuardIsUsable(s, e, order, mode, start, p);
    if ItemUsable(s, start.typeName, item) {
      AcceptedIsSelected(s, start, p, id);
    }
  }

  lemma AcceptedIsSelected(s: Search, start: NodePattern, p: Predicate, id: ObjectId)
    requires SearchReady(s) && PropertySearch(s, start, p) && Membership(start.alias, p) && Accepted(s, start, id)
    requires ItemUsable(s, start.typeName, ItemOf(s.cx.parameters, p))
    ensures id in SelectItem(s, start.typeName, ItemOf(s.cx.parameters, p)).ids
  {
    var b := One(start.alias, id);
    OneItem(s, start, p);
    assert Decide(s.cx, b, s.where.value) == DecidePredicate(s.cx, b, p);
    ItemKeeps(s, start, p, ItemOf(s.cx.parameters, p), b);
  }

  /** A node of an indexed type with the property, and beside it a node. */
  function TwoNodes(t: Option<string>, path: string, node: EncodedNode): map<ObjectId, EncodedNode> {
    map[0 := ObjectNode(t, [Property(path, Null)]), 1 := node]
  }

  /** A node without an indexed property is in no bucket. */
  lemma UnlistedIsMissed(s: Search, e: Envelope, order: seq<ObjectId>, mode: PropertyMode, start: NodePattern,
                         p: Predicate,
                         t: Option<string>, node: EncodedNode)
    requires Prepared(s) && BuiltFor(s, e, order, mode, []) && PropertySearch(s, start, p) && Membership(start.alias, p)
    requires e.nodes == TwoNodes(t, p.left.path.value.text, node) && ShouldIndex(mode, t, p.left.path.value.text)
    requires TypeIs(node, start.typeName) && node.ObjectNode?
    requires Passes(s.cx.runtime, s.cx.parameters, p, ReadValue(node, p.left.path.value))
    requires forall q | q in node.props :: !ShouldIndex(mode, node.typeName, q.name)
    ensures Missed(s, start, 1)
  {
    assert Unfold(true);
    OneItem(s, start, p);
    SimpleDecides(s, start, p, 1);
    var item := ItemOf(s.cx.parameters, p);
    var mark := PropertyKey(None, item.path.text);
    assert 0 in e.nodes;
    var i :| 0 <= i < |order| && order[i] == 0;
    assert MarkedBy(mode, t, e.nodes[0].props[0], mark);
    assert NodeMarks(e.nodes[order[i]], mode, mark) && SomeMarks(order, e.nodes, mode, mark);
    forall key ensures !NodeIndexedUnder(mode, StableKeys(s.cx.runtime), node, key) {
      assert forall k | 0 <= k < |node.props| :: node.props[k] in node.props;
    }
    assert s.cx.nodes[1] == node;
  }

  lemma UnlistedShows(rt: Runtime, parameters: map<string, JsValue>, start: NodePattern, p: Predicate,
                      mode: PropertyMode,
                      t: Option<string>, node: EncodedNode)
    requires HostLanguage(rt) && Membership(start.alias, p) && Values(parameters, p).Some?
    requires Clean(p.left.path.value.text) && Clean(TypeText(t)) && CleanGraph(map[1 := node])
    requires ShouldIndex(mode, t, p.left.path.value.text) && TypeIs(node, start.typeName) && node.ObjectNode?
    requires Passes(rt, parameters, p, ReadValue(node, p.left.path.value))
    requires forall q | q in node.props :: !ShouldIndex(mode, node.typeName, q.name)
    ensures !AlwaysSameClean(rt, parameters, start, Test(p), mode)
  {
    var e := Envelope(Null, TwoNodes(t, p.left.path.value.text, node));
    var order: seq<ObjectId> := [0, 1];
    assert !Conflict(rt, e.nodes, Pairs(order, []));
    var s := SearchOf(e, order, mode, [], rt, parameters, Test(p));
    BuiltIsPrepared(s, e, order, mode, []);
    TwoNodesClean(t, p.left.path.value.text, node);
    UnlistedIsMissed(s, e, order, mode, start, p, t, node);
    MissedDiffers(s, start, p, 1);
    assert SearchOver(s, e, order, mode, [], rt, parameters, Test(p));
  }

  lemma TwoNodesClean(t: Option<string>, path: string, node: EncodedNode)
    requires Clean(path) && Clean(TypeText(t)) && CleanGraph(map[1 := node])
    ensures CleanGraph(TwoNodes(t, path, node))
  {
    assert map[1 := node][1] == node;
  }

  lemma MissedDiffers(s: Search, start: NodePattern, p: Predicate, id: ObjectId)
    requires Prepared(s) && PropertySearch(s, start, p) && Missed(s, start, id)
    ensures RunPlanned(s, OneClause(start)) != RunAll(s, OneClause(start))
  {
    OneItem(s, start, p);
    StatementExact(s, start);
  }

  /** Nothing is looked up for the comparison, so nothing is missed. */
  lemma NotServed(s: Search, start: NodePattern, p: Predicate)
    requires s.advanced.None? && s.where == Some(Test(p)) && OnPath(start.alias, p) &&
             Values(s.cx.parameters, p).None?
    ensures Allowed(s, start).None? && !PlanningFails(s, start)
  {
    assert [p][..0] == [];
    assert IndexableItems(s.cx, start.alias, [p]) == [];
    assert Unfold(true);
  }

  lemma GuardFails(rt: Runtime, parameters: map<string, JsValue>, start: NodePattern, p: Predicate, mode: PropertyMode)
    requires HostLanguage(rt) && Membership(start.alias, p) && !PropertyGuard(rt, parameters, start, p, mode)
    requires Clean(p.left.path.value.text) && Clean(TypeText(start.typeName))
    ensures !AlwaysSameClean(rt, parameters, start, Test(p), mode)
  {
    var path := p.left.path.value;
    var t :| Clean(TypeText(t)) && ShouldIndex(mode, t, path.text);
    UndefinedPasses(rt, parameters, p);
    if JsUndefined in Values(parameters, p).value {
      UnlistedShows(rt, parameters, start, p, mode, t, ObjectNode(start.typeName, []));
    } else {
      var t' :| Clean(TypeText(t')) && (start.typeName.None? || t' == start.typeName) &&
      !ShouldIndex(mode, t', path.text);
      var e :| Passes(rt, parameters, p, EncodedToJs(e));
      ReadsBack(t', path, e, [], Path(path.text + "x", Name));
      UnlistedShows(rt, parameters, start, p, mode, t, ObjectWith(t', path, e, []));
    }
  }

  /**
   * Property buckets keep the rows of every clean graph exactly when, if the property is indexed for any type, no
   * constant is undefined and, if any value passes, the property is indexed for every type of the pattern.
   */
  lemma PropertyExact(rt: Runtime, parameters: map<string, JsValue>, start: NodePattern, p: Predicate,
                      mode: PropertyMode)
    requires HostLanguage(rt) && Membership(start.alias, p) && Clean(p.left.path.value.text) &&
             Clean(TypeText(start.typeName))
    ensures AlwaysSameClean(rt, parameters, start, Test(p), mode) <==> PropertyGuard(rt, parameters, start, p, mode)
  {
    if !PropertyGuard(rt, parameters, start, p, mode) {
      GuardFails(rt, parameters, start, p, mode);
    } else {
      forall s: Search, e: Envelope, order: seq<ObjectId>
        | SearchOver(s, e, order, mode, [], rt, parameters, Test(p)) && CleanGraph(e.nodes)
        ensures RunPlanned(s, OneClause(start)) == RunAll(s, OneClause(start))
      {
        GuardedSame(s, e, order, mode, start, p);
      }
    }
  }

  lemma GuardedSame(s: Search, e: Envelope, order: seq<ObjectId>, mode: PropertyMode, start: NodePattern, p: Predicate)
    requires HostLanguage(s.cx.runtime) && BuiltFor(s, e, order, mode, []) && CleanGraph(e.nodes)
    requires s.where == Some(Test(p)) && Membership(start.alias, p)
    requires Clean(p.left.path.value.text) && Clean(TypeText(start.typeName))
    requires PropertyGuard(s.cx.runtime, s.cx.parameters, start, p, mode)
    ensures RunPlanned(s, OneClause(start)) == RunAll(s, OneClause(start))
  {
    BuiltIsReady(s, e, order, mode, []);
    BuiltIsPrepared(s, e, order, mode, []);
    if Values(s.cx.parameters, p).None? {
      NotServed(s, start, p);
    } else {
      OneItem(s, start, p);
      forall id ensures !Missed(s, start, id) {
        if Accepted(s, start, id) {
          GuardedMissesNothing(s, e, order, mode, start, p, id);
        }
      }
    }
    StatementExact(s, start);
  }
}
