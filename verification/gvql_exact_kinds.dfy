/** The exact guard of `$kind`, which planning looks up as if it were a stored property. */
module GvqlExactKinds {
  import opened EncodedGraph
  import opened GvqlValues
  import opened GvqlExpressions
  import opened GvqlIndex
  import opened GvqlIndexKeys
  import opened GvqlAdvancedIndex
  import opened GvqlMatcher
  import opened GvqlPlanner
  import opened GvqlPlanEquivalence
  import opened GvqlPlanLimits
  import opened GvqlBuiltIndexes
  import opened GvqlStatementLimits
  import opened GvqlExactProperties
  import opened Folding

  /** `alias.$kind = constant` or `alias.$kind IN constants`. */
  predicate OnKind(alias: string, p: Predicate) {
    OnPath(alias, p) && p.left.path.value.text == KIND_PATH
  }

  /** The kinds a node of the pattern can have: only objects have a type. */
  function PossibleKinds(typeName: Option<string>): set<string> {
    if typeName.None? then {"array", "set", "map", "object", "lazy"} else {"object"}
  }

  function EmptyNode(kind: string, typeName: Option<string>): EncodedNode {
    if kind == "array" then ArrayNode([])
    else if kind == "set" then SetNode([])
    else if kind == "map" then MapNode([])
    else if kind == "lazy" then LazyNode("")
    else ObjectNode(typeName, [])
  }

  lemma PossibleIff(typeName: Option<string>, kind: string)
    ensures kind in PossibleKinds(typeName) <==> exists node :: TypeIs(node, typeName) && KindOf(node) == kind
    ensures kind in PossibleKinds(typeName) ==>
              TypeIs(EmptyNode(kind, typeName), typeName) && KindOf(EmptyNode(kind, typeName)) == kind
  {
    var empty := EmptyNode(kind, typeName);
    assert kind in PossibleKinds(typeName) ==> TypeIs(empty, typeName) && KindOf(empty) == kind;
  }

  /** If the path is indexed for any type, no kind the pattern's nodes can have is among the constants. */
  ghost predicate KindGuard(rt: Runtime, parameters: map<string, JsValue>, start: NodePattern, p: Predicate,
                            mode: PropertyMode)
    requires OnKind(start.alias, p)
  {
    Values(parameters, p).Some? && Indexed(mode, KIND_PATH) ==>
      forall kind | kind in PossibleKinds(start.typeName) :: !Passes(rt, parameters, p, JsString(kind))
  }

  lemma KindDecides(s: Search, start: NodePattern, p: Predicate, id: ObjectId)
    requires s.where == Some(Test(p)) && OnKind(start.alias, p) && id in s.cx.nodes && s.cx.indexed == s.cx.nodes
    ensures Decided(s, One(start.alias, id)) ==
            Some(Passes(s.cx.runtime, s.cx.parameters, p, JsString(KindOf(s.cx.nodes[id]))))
  {
    var b, read, v := One(start.alias, id), JsString(KindOf(s.cx.nodes[id])), ConstantIn(s.cx.parameters, p);
    assert |KIND_PATH| == 5 && |ID_PATH| == 3;
    assert ReadPath(s.cx, b, start.alias, p.left.path) == read;
    assert Evaluate(s.cx, b, p.left) == Some(read) && Evaluate(s.cx, b, p.right) == Some(v);
    assert Holds(s.cx, read, p.operator, v) == Holds(Bare(s.cx.runtime, s.cx.parameters), read, p.operator, v);
    assert Decide(s.cx, b, Test(p)) == DecidePredicate(s.cx, b, p);
  }

  // Where the guard holds.

  /** Without an index on the path all nodes are kept; with one, no node is accepted. */
  lemma GuardedKeepsAll(s: Search, e: Envelope, order: seq<ObjectId>, mode: PropertyMode, start: NodePattern,
                        p: Predicate, id: ObjectId)
    requires Prepared(s) && BuiltFor(s, e, order, mode, []) && CleanGraph(e.nodes)
    requires OnKind(start.alias, p) && PropertySearch(s, start, p) && Clean(TypeText(start.typeName))
    requires KindGuard(s.cx.runtime, s.cx.parameters, start, p, mode) && Accepted(s, start, id)
    ensures id in SelectItem(s, start.typeName, ItemOf(s.cx.parameters, p)).ids
  {
    assert Unfold(true);
    var item := ItemOf(s.cx.parameters, p);
    KindDecides(s, start, p, id);
    PossibleIff(start.typeName, KindOf(s.cx.nodes[id]));
    assert TypeIs(s.cx.nodes[id], start.typeName);
    assert !Indexed(mode, KIND_PATH);
    assert |KIND_PATH| == 5 && |ID_PATH| == 3 && KIND_PATH != TYPE_PATH;
    if PropertyAvailable(s.ix, KIND_PATH, Keys(s.cx.runtime, start.typeName, item)) {
      AvailableIsIndexed(s, e, order, mode, start, item);
    }
  }

  lemma GuardedSame(s: Search, e: Envelope, order: seq<ObjectId>, mode: PropertyMode, start: NodePattern, p: Predicate)
    requires HostLanguage(s.cx.runtime) && BuiltFor(s, e, order, mode, []) && CleanGraph(e.nodes)
    requires s.where == Some(Test(p)) && OnKind(start.alias, p) && Clean(TypeText(start.typeName))
    requires KindGuard(s.cx.runtime, s.cx.parameters, start, p, mode)
    ensures RunPlanned(s, OneClause(start)) == RunAll(s, OneClause(start))
  {
    BuiltIsReady(s, e, order, mode, []);
    BuiltIsPrepared(s, e, order, mode, []);
    if Values(s.cx.parameters, p).None? {
      NotServed(s, start, p);
    } else {
      OneItem(s, start, p);
      forall id ensures !Missed(s, start, id) {
        if Accepted(s, start, id) {
          GuardedKeepsAll(s, e, order, mode, start, p, id);
        }
      }
    }
    StatementExact(s, start);
  }

  // Where it does not.

  predicate Propertyless(node: EncodedNode) {
    (TypeOf(node).Some? ==> Clean(TypeOf(node).value)) && (node.ObjectNode? ==> node.props == [])
  }

  /** Beside a node that stores a property of this name, a node of an accepted kind without properties is missed. */
  lemma KindIsMissed(s: Search, e: Envelope, order: seq<ObjectId>, mode: PropertyMode, start: NodePattern,
                     p: Predicate, t: Option<string>, node: EncodedNode)
    requires Prepared(s) && BuiltFor(s, e, order, mode, []) && OnKind(start.alias, p) && PropertySearch(s, start, p)
    requires Propertyless(node) && TypeIs(node, start.typeName) && ShouldIndex(mode, t, KIND_PATH)
    requires e.nodes == TwoNodes(t, KIND_PATH, node)
    requires Passes(s.cx.runtime, s.cx.parameters, p, JsString(KindOf(node)))
    ensures Missed(s, start, 1)
  {
    assert Unfold(true);
    OneItem(s, start, p);
    KindDecides(s, start, p, 1);
    StoredKindMarks(s, e, order, mode, t, node);
    UnlistedNode(s, mode, 1);
    NotSelected(s, start, p, 1);
  }

  lemma NotSelected(s: Search, start: NodePattern, p: Predicate, id: ObjectId)
    requires OnKind(start.alias, p) && Values(s.cx.parameters, p).Some?
    requires s.ix.mode.AllProperties? || PropertyKey(None, KIND_PATH) in s.ix.indexedKeys
    requires forall key :: id !in Bucket(s.ix.byProperty, key)
    ensures id !in SelectItem(s, start.typeName, ItemOf(s.cx.parameters, p)).ids
  {
    assert |KIND_PATH| == 5 && |ID_PATH| == 3 && KIND_PATH != TYPE_PATH;
  }

  /** A stored property of the name makes the path count as indexed. */
  lemma StoredKindMarks(s: Search, e: Envelope, order: seq<ObjectId>, mode: PropertyMode, t: Option<string>,
                        node: EncodedNode)
    requires Prepared(s) && BuiltFor(s, e, order, mode, []) && ShouldIndex(mode, t, KIND_PATH)
    requires e.nodes == TwoNodes(t, KIND_PATH, node)
    ensures mode.AllProperties? || PropertyKey(None, KIND_PATH) in s.ix.indexedKeys
  {
    assert Unfold(true);
    var mark := PropertyKey(None, KIND_PATH);
    assert 0 in e.nodes;
    var i :| 0 <= i < |order| && order[i] == 0;
    assert MarkedBy(mode, t, e.nodes[0].props[0], mark);
    assert NodeMarks(e.nodes[order[i]], mode, mark) && SomeMarks(order, e.nodes, mode, mark);
  }

  /** A node without properties is in no property bucket. */
  lemma UnlistedNode(s: Search, mode: PropertyMode, id: ObjectId)
    requires Prepared(s) && s.ix.mode == mode && id in s.cx.nodes
    requires s.cx.nodes[id].ObjectNode? ==> s.cx.nodes[id].props == []
    ensures forall key :: id !in Bucket(s.ix.byProperty, key)
  {
    assert Unfold(true);
    forall key ensures id !in Bucket(s.ix.byProperty, key) {
      assert !NodeIndexedUnder(mode, StableKeys(s.cx.runtime), s.cx.nodes[id], key);
    }
  }

  lemma GuardFails(rt: Runtime, parameters: map<string, JsValue>, start: NodePattern, p: Predicate, mode: PropertyMode)
    requires HostLanguage(rt) && OnKind(start.alias, p) && !KindGuard(rt, parameters, start, p, mode)
    requires Clean(TypeText(start.typeName))
    ensures !AlwaysSameClean(rt, parameters, start, Test(p), mode)
  {
    var t :| Clean(TypeText(t)) && ShouldIndex(mode, t, KIND_PATH);
    var kind :| kind in PossibleKinds(start.typeName) && Passes(rt, parameters, p, JsString(kind));
    PossibleIff(start.typeName, kind);
    KindShows(rt, parameters, start, p, mode, t, EmptyNode(kind, start.typeName));
  }

  lemma KindShows(rt: Runtime, parameters: map<string, JsValue>, start: NodePattern, p: Predicate, mode: PropertyMode,
                  t: Option<string>, node: EncodedNode)
    requires HostLanguage(rt) && OnKind(start.alias, p) && Values(parameters, p).Some?
    requires Clean(TypeText(t)) && ShouldIndex(mode, t, KIND_PATH)
    requires Propertyless(node) && TypeIs(node, start.typeName) && Passes(rt, parameters, p, JsString(KindOf(node)))
    ensures !AlwaysSameClean(rt, parameters, start, Test(p), mode)
  {
    var e := Envelope(Null, TwoNodes(t, KIND_PATH, node));
    var order: seq<ObjectId> := [0, 1];
    assert !Conflict(rt, e.nodes, Pairs(order, []));
    var s := SearchOf(e, order, mode, [], rt, parameters, Test(p));
    BuiltIsPrepared(s, e, order, mode, []);
    assert CleanGraph(map[1 := node]);
    TwoNodesClean(t, KIND_PATH, node);
    KindIsMissed(s, e, order, mode, start, p, t, node);
    MissedDiffers(s, start, p, 1);
    assert SearchOver(s, e, order, mode, [], rt, parameters, Test(p));
  }

  /**
   * A `$kind` comparison keeps the rows of every clean graph exactly when nothing is looked up for it, or the path is
   * indexed for no type, or no constant is a kind the pattern's nodes can have.
   */
  lemma KindExact(rt: Runtime, parameters: map<string, JsValue>, start: NodePattern, p: Predicate, mode: PropertyMode)
    requires HostLanguage(rt) && OnKind(start.alias, p) && Clean(TypeText(start.typeName))
    ensures AlwaysSameClean(rt, parameters, start, Test(p), mode) <==> KindGuard(rt, parameters, start, p, mode)
  {
    if !KindGuard(rt, parameters, start, p, mode) {
      GuardFails(rt, parameters, start, p, mode);
    } else {
      forall s: Search, e: Envelope, order: seq<ObjectId>
        | SearchOver(s, e, order, mode, [], rt, parameters, Test(p)) && CleanGraph(e.nodes)
        ensures RunPlanned(s, OneClause(start)) == RunAll(s, OneClause(start))
      {
        GuardedSame(s, e, order, mode, start, p);
      }
    }
  }
}
