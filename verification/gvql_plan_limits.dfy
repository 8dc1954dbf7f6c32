/** Where indexes and WHERE disagree. */
module GvqlPlanLimits {
  import opened EncodedGraph
  import opened GvqlValues
  import opened GvqlExpressions
  import opened GvqlIndex
  import opened GvqlIndexKeys
  import opened GvqlAdvancedIndex
  import opened GvqlMatcher
  import opened GvqlPlanner
  import opened GvqlSelectionSafety
  import opened GvqlPlanEquivalence

  /** The name cannot be confused with the separator of index keys. */
  predicate Clean(name: string) {
    '\0' !in name
  }

  ghost predicate CleanGraph(nodes: map<ObjectId, EncodedNode>) {
    forall id | id in nodes ::
      && (TypeOf(nodes[id]).Some? ==> Clean(TypeOf(nodes[id]).value))
      && (nodes[id].ObjectNode? ==> forall p | p in nodes[id].props :: Clean(p.name))
  }

  /** Where the first separator stands. */
  function SeparatorAt(s: string): nat {
    if s == "" || s[0] == '\0' then 0 else 1 + SeparatorAt(s[1..])
  }

  lemma {:induction false} FirstSeparator(a: string, b: string)
    requires Clean(a)
    ensures SeparatorAt(a + SEPARATOR + b) == |a|
    decreases |a|
  {
    var s := a + SEPARATOR + b;
    if a == "" {
      assert s[0] == '\0';
    } else {
      assert s[0] == a[0] && s[1..] == a[1..] + SEPARATOR + b;
      FirstSeparator(a[1..], b);
    }
  }

  lemma SplitAtSeparator(a: string, b: string, c: string, d: string)
    requires Clean(a) && Clean(c) && a + SEPARATOR + b == c + SEPARATOR + d
    ensures a == c && b == d
  {
    var left, right := a + SEPARATOR + b, c + SEPARATOR + d;
    FirstSeparator(a, b);
    FirstSeparator(c, d);
    assert left[..|a|] == a && right[..|c|] == c;
    assert left[|a| + 1..] == b && right[|c| + 1..] == d;
  }

  /** Clean index keys are equal only for equal types, paths and values. */
  lemma IndexKeyInjective(t: Option<string>, path: string, v: string, t': Option<string>, path': string, v': string)
    requires Clean(TypeText(t)) && Clean(path) && Clean(TypeText(t')) && Clean(path')
    requires PropertyIndexKey(t, path, v) == PropertyIndexKey(t', path', v')
    ensures path == path' && v == v'
  {
    assert PropertyIndexKey(t, path, v) == TypeText(t) + SEPARATOR + (path + SEPARATOR + v);
    assert PropertyIndexKey(t', path', v') == TypeText(t') + SEPARATOR + (path' + SEPARATOR + v');
    SplitAtSeparator(TypeText(t), path + SEPARATOR + v, TypeText(t'), path' + SEPARATOR + v');
    SplitAtSeparator(path, v, path', v');
  }

  /** A node in a bucket has an indexed property of the bucket's path and value. */
  lemma BucketWitness(s: Search, typeName: Option<string>, path: string, v: string, id: ObjectId) returns (p: Property)
    requires SearchReady(s) && CleanGraph(s.cx.nodes) && Clean(TypeText(typeName)) && Clean(path)
    requires id in Bucket(s.ix.byProperty, PropertyIndexKey(typeName, path, v))
    ensures id in s.cx.nodes && s.cx.nodes[id].ObjectNode? && p in s.cx.nodes[id].props && p.name == path
    ensures ShouldIndex(s.ix.mode, s.cx.nodes[id].typeName, path)
  {
    var node, key := s.cx.nodes[id], PropertyIndexKey(typeName, path, v);
    var i :| 0 <= i < |node.props| && IndexedUnder(s.ix.mode, StableKeys(s.cx.runtime), node.typeName, node.props[i],
                                                   key);
    p := node.props[i];
    var value := StableKey(s.cx.runtime, EncodedToJs(p.value));
    if key == PropertyIndexKey(None, p.name, value) {
      IndexKeyInjective(typeName, path, v, None, p.name, value);
    } else {
      IndexKeyInjective(typeName, path, v, node.typeName, p.name, value);
    }
  }

  /** The candidate's property equals the constant. */
  predicate Equals(s: Search, typeName: Option<string>, path: Path, v: JsValue, id: ObjectId) {
    id in s.cx.nodes && MatchesType(s.cx.nodes, id, typeName) && StrictEquals(ReadValue(s.cx.nodes[id], path), v)
  }

  /**
   * An available property index keeps every candidate equal to the constant exactly when each of them is of a type the
   * configuration indexes the property for.
   */
  lemma PropertySelectionExact(s: Search, typeName: Option<string>, path: Path, v: JsValue)
    requires SearchReady(s) && CleanGraph(s.cx.nodes) && Clean(TypeText(typeName)) && Clean(path.text)
    requires PlainPath(path) && v != JsUndefined &&
             PropertyAvailable(s.ix, path.text, Keys(s.cx.runtime, typeName, Indexable(path, [v])))
    ensures (forall id | Equals(s, typeName, path, v, id) ::
             id in SelectItem(s, typeName, Indexable(path, [v])).ids) <==>
            (forall id | Equals(s, typeName, path, v, id) :: ShouldIndex(s.ix.mode, TypeOf(s.cx.nodes[id]), path.text))
  {
    var item := Indexable(path, [v]);
    var key := PropertyIndexKey(typeName, path.text, StableKey(s.cx.runtime, v));
    assert Keys(s.cx.runtime, typeName, item) == [key];
    var ids := SelectItem(s, typeName, item).ids;
    forall id | Equals(s, typeName, path, v, id)
      ensures id in ids <==> ShouldIndex(s.ix.mode, TypeOf(s.cx.nodes[id]), path.text)
    {
      if id in ids {
        var _ := BucketWitness(s, typeName, path.text, StableKey(s.cx.runtime, v), id);
      }
      if ShouldIndex(s.ix.mode, TypeOf(s.cx.nodes[id]), path.text) {
        EqualPropertyListed(s, typeName, id, path, v);
        assert key in [key];
      }
    }
  }

  lemma EqualPropertyListed(s: Search, typeName: Option<string>, id: ObjectId, path: Path, v: JsValue)
    requires SearchReady(s) && Equals(s, typeName, path, v, id) && PlainPath(path) && v != JsUndefined
    requires ShouldIndex(s.ix.mode, TypeOf(s.cx.nodes[id]), path.text)
    ensures id in Bucket(s.ix.byProperty, PropertyIndexKey(typeName, path.text, StableKey(s.cx.runtime, v)))
  {
    var node, key := s.cx.nodes[id], PropertyIndexKey(typeName, path.text, StableKey(s.cx.runtime, v));
    FoundProperty(node.props, path.text);
    var i :| 0 <= i < |node.props| && node.props[i] == Property(path.text, FindProperty(node.props, path.text).value);
    EqualValuesShareKey(s.cx.runtime, v, EncodedToJs(node.props[i].value));
    assert IndexedUnder(s.ix.mode, StableKeys(s.cx.runtime), node.typeName, node.props[i], key);
  }

  /** No other definition of the family shares the name. */
  ghost predicate NamedAlone(ax: AdvancedIndex, d: Definition) {
    d in ax.definitions && forall k | k in ax.definitions && k.kind == d.kind && k.name == d.name :: k == d
  }

  lemma BucketOfDefinition(s: Search, d: Definition, at: Slot, id: ObjectId)
    requires SearchReady(s) && s.advanced.Some? && NamedAlone(s.advanced.value, d) && at.kind == d.kind &&
             at.name == d.name
    requires id in Ids(s.advanced.value, at)
    ensures id in s.cx.nodes && ListsUnder(s.cx.runtime, d, s.cx.nodes[id], at.key)
  {
    var done := Pairs(s.ix.order, s.advanced.value.definitions);
    assert ListedBy(s.cx.runtime, s.cx.nodes, done, at, id);
  }

  /** The candidate's value stands in the relation, as WHERE reads it. */
  predicate Stands(s: Search, typeName: Option<string>, path: Path, operator: Operator, v: JsValue, id: ObjectId) {
    && id in s.cx.nodes && s.cx.nodes[id].ObjectNode? && MatchesType(s.cx.nodes, id, typeName)
    && Holds(s.cx, ReadValue(s.cx.nodes[id], path), operator, v)
  }

  /**
   * A range selection keeps every object node WHERE accepts exactly when a missing value is not accepted or no such
   * node misses its value: WHERE compares a missing value as the empty text, the index leaves it out.
   */
  lemma RangeSelectionExact(s: Search, typeName: Option<string>, d: Definition, operator: Operator, v: JsValue)
    requires SearchReady(s) && s.advanced.Some? && NamedAlone(s.advanced.value, d) && IsRangeOperator(operator)
    requires d.kind.Range? && |d.paths| == 1 && DefinitionUsable(s.cx.runtime, typeName, d)
    ensures (forall id | Stands(s, typeName, d.paths[0], operator, v, id) ::
             id in RangeLookup(s.cx, s.advanced.value, d.name, operator, v)) <==>
            (Holds(s.cx, JsUndefined, operator, v) ==>
               forall id | id in s.cx.nodes && s.cx.nodes[id].ObjectNode? && MatchesType(s.cx.nodes, id, typeName) ::
                 !IsNullish(ReadValue(s.cx.nodes[id], d.paths[0])))
  {
    var path, found := d.paths[0], RangeLookup(s.cx, s.advanced.value, d.name, operator, v);
    forall id | id in s.cx.nodes && s.cx.nodes[id].ObjectNode? && MatchesType(s.cx.nodes, id, typeName)
      ensures IsNullish(ReadValue(s.cx.nodes[id], path)) ==>
                id !in found && (Stands(s, typeName, path, operator, v, id) <==> Holds(s.cx, JsUndefined, operator, v))
      ensures !IsNullish(ReadValue(s.cx.nodes[id], path)) && Stands(s, typeName, path, operator, v, id) ==> id in found
    {
      RangeNode(s, typeName, d, operator, v, id);
    }
  }

  /** One node: found if it stands in the relation and has a value, not found if it has none. */
  lemma RangeNode(s: Search, typeName: Option<string>, d: Definition, operator: Operator, v: JsValue, id: ObjectId)
    requires SearchReady(s) && s.advanced.Some? && NamedAlone(s.advanced.value, d) && IsRangeOperator(operator)
    requires d.kind.Range? && |d.paths| == 1 && DefinitionUsable(s.cx.runtime, typeName, d)
    requires id in s.cx.nodes && s.cx.nodes[id].ObjectNode? && MatchesType(s.cx.nodes, id, typeName)
    ensures var path, found := d.paths[0], RangeLookup(s.cx, s.advanced.value, d.name, operator, v);
            && (IsNullish(ReadValue(s.cx.nodes[id], path)) ==>
                 id !in found && (Stands(s, typeName, path, operator, v, id) <==>
                                  Holds(s.cx, JsUndefined, operator, v)))
            && (!IsNullish(ReadValue(s.cx.nodes[id], path)) && Stands(s, typeName, path, operator, v, id) ==>
                id in found)
  {
    var path := d.paths[0];
    var read := ReadValue(s.cx.nodes[id], path);
    NullishCompareAlike(s.cx, read, operator, v);
    if IsNullish(read) {
      MissingNotFound(s, d, operator, v, id);
    } else if Stands(s, typeName, path, operator, v, id) {
      RangeListed(s, d, id, path, operator, v);
    }
  }

  lemma RangeListsPresent(s: Search, d: Definition, at: Slot, id: ObjectId)
    requires SearchReady(s) && s.advanced.Some? && NamedAlone(s.advanced.value, d) && d.kind.Range? && |d.paths| == 1
    requires at.kind.Range? && at.name == d.name && id in Ids(s.advanced.value, at)
    ensures id in s.cx.nodes && !IsNullish(ReadValue(s.cx.nodes[id], d.paths[0]))
  {
    BucketOfDefinition(s, d, at, id);
    assert DefinedValues(s.cx.runtime, s.cx.nodes[id], d)[0] == ReadValue(s.cx.nodes[id], d.paths[0]);
  }

  lemma MissingNotFound(s: Search, d: Definition, operator: Operator, v: JsValue, id: ObjectId)
    requires SearchReady(s) && s.advanced.Some? && NamedAlone(s.advanced.value, d) && d.kind.Range? && |d.paths| == 1
    requires id in s.cx.nodes && IsNullish(ReadValue(s.cx.nodes[id], d.paths[0]))
    ensures id !in RangeLookup(s.cx, s.advanced.value, d.name, operator, v)
  {
    forall at: Slot | at.kind.Range? && at.name == d.name ensures id !in Ids(s.advanced.value, at) {
      if id in Ids(s.advanced.value, at) {
        RangeListsPresent(s, d, at, id);
      }
    }
  }

  // `$kind` is looked up as if it were a stored property.

  function KindCondition(alias: string, kind: string): Condition {
    Test(Predicate(PathOf(alias, Some(Path(KIND_PATH, Name))), Equal, Constant(Value(JsString(kind)))))
  }

  function AllNodes(alias: string): Clause {
    Clause(Pattern(NodePattern(alias, None), []), false)
  }

  function One(alias: string, id: ObjectId): Binding {
    map[alias := id]
  }

  lemma KindDecided(s: Search, alias: string, kind: string, id: ObjectId)
    requires s.where == Some(KindCondition(alias, kind)) && s.cx.indexed == s.cx.nodes
    ensures Decided(s, One(alias, id)) == Some(id in s.cx.nodes && KindOf(s.cx.nodes[id]) == kind)
  {
    var p := s.where.value.leaf;
    assert Evaluate(s.cx, One(alias, id), p.left) ==
           Some(ReadPath(s.cx, One(alias, id), alias, Some(Path(KIND_PATH, Name))));
    assert Evaluate(s.cx, One(alias, id), p.right) == Some(JsString(kind));
    assert |KIND_PATH| == 5 && |ID_PATH| == 3;
    var read := ReadPath(s.cx, One(alias, id), alias, Some(Path(KIND_PATH, Name)));
    assert One(alias, id)[alias] == id;
    assert read == if id in s.cx.nodes then JsString(KindOf(s.cx.nodes[id])) else JsUndefined;
    assert DecidePredicate(s.cx, One(alias, id), p) == Some(StrictEquals(read, JsString(kind)));
    assert Decide(s.cx, One(alias, id), s.where.value) == DecidePredicate(s.cx, One(alias, id), p);
    assert StrictEquals(read, JsString(kind)) <==> id in s.cx.nodes && KindOf(s.cx.nodes[id]) == kind;
  }

  ghost predicate OnePerNode(all: seq<Binding>, nodes: map<ObjectId, EncodedNode>, alias: string) {
    forall b :: b in all <==> exists id :: id in nodes && b == One(alias, id)
  }

  lemma KindRows(s: Search, alias: string, kind: string, all: seq<Binding>)
    requires s.where == Some(KindCondition(alias, kind)) && s.cx.indexed == s.cx.nodes &&
             OnePerNode(all, s.cx.nodes, alias)
    ensures Filtered(s, all) == Some([]) <==> forall id | id in s.cx.nodes :: KindOf(s.cx.nodes[id]) != kind
  {
    FilteredKeeps(s, all);
    forall b | b in all ensures Decided(s, b).Some? {
      var id :| id in s.cx.nodes && b == One(alias, id);
      KindDecided(s, alias, kind, id);
    }
    var rows := Keep(all, AcceptedBy(s));
    forall id | id in s.cx.nodes ensures One(alias, id) in rows <==> KindOf(s.cx.nodes[id]) == kind {
      KeepMember(all, AcceptedBy(s), One(alias, id));
      KindDecided(s, alias, kind, id);
    }
    if rows != [] {
      KeepMember(all, AcceptedBy(s), rows[0]);
      var id :| id in s.cx.nodes && rows[0] == One(alias, id);
      assert KindOf(s.cx.nodes[id]) == kind;
    }
  }

  /**
   * `MATCH (alias) WHERE alias.$kind = kind` finds nothing through the index, so it is right exactly when no node is of
   * the kind.
   */
  lemma KindStatementExact(s: Search, alias: string, kind: string)
    requires SearchReady(s) && GraphOf(s.ix, s.cx.nodes) && CleanGraph(s.cx.nodes) && s.ix.mode.AllProperties? &&
             s.advanced.None?
    requires s.where == Some(KindCondition(alias, kind))
    requires forall id, p | id in s.cx.nodes && s.cx.nodes[id].ObjectNode? && p in s.cx.nodes[id].props ::
             p.name != KIND_PATH
    ensures RunPlanned(s, [AllNodes(alias)]) == Some([])
    ensures RunPlanned(s, [AllNodes(alias)]) == RunAll(s, [AllNodes(alias)]) <==>
            forall id | id in s.cx.nodes :: KindOf(s.cx.nodes[id]) != kind
  {
    KindSelectionEmpty(s, kind);
    KindCandidatesEmpty(s, alias, kind);
    PlannedRows(s, [AllNodes(alias)]);
    MatchesOfAll(s, alias);
    PlannedMatchesNothing(s, alias);
    KindRows(s, alias, kind, MatchAll(s, [AllNodes(alias)]));
  }

  lemma KindSelectionEmpty(s: Search, kind: string)
    requires SearchReady(s) && CleanGraph(s.cx.nodes) && s.ix.mode.AllProperties?
    requires forall id, p | id in s.cx.nodes && s.cx.nodes[id].ObjectNode? && p in s.cx.nodes[id].props ::
             p.name != KIND_PATH
    ensures SelectItem(s, None, Indexable(Path(KIND_PATH, Name), [JsString(kind)])).ids == {}
  {
    var item, v := Indexable(Path(KIND_PATH, Name), [JsString(kind)]), StableKey(s.cx.runtime, JsString(kind));
    var key := PropertyIndexKey(None, KIND_PATH, v);
    assert Keys(s.cx.runtime, None, item) == [key];
    assert |KIND_PATH| == 5 && |ID_PATH| == 3;
    forall id ensures id !in Bucket(s.ix.byProperty, key) {
      if id in Bucket(s.ix.byProperty, key) {
        var _ := BucketWitness(s, None, KIND_PATH, v, id);
      }
    }
  }

  lemma KindCandidatesEmpty(s: Search, alias: string, kind: string)
    requires s.advanced.None? && s.where == Some(KindCondition(alias, kind))
    requires SelectItem(s, None, Indexable(Path(KIND_PATH, Name), [JsString(kind)])).ids == {}
    ensures CandidatesOf(s, NodePattern(alias, None)) == []
  {
    var start, item := NodePattern(alias, None), Indexable(Path(KIND_PATH, Name), [JsString(kind)]);
    var p := s.where.value.leaf;
    assert [p][..0] == [];
    assert IndexableItems(s.cx, alias, [p]) == [item];
    assert SelectItems(s, None, [item]) == [SelectItem(s, None, item)];
    EmptyRestriction(s.ix.order, Allowed(s, start).value);
  }

  lemma EmptyRestriction(ids: seq<ObjectId>, allowed: set<ObjectId>)
    requires allowed == {}
    ensures Restricted(ids, Some(allowed)) == []
    decreases |ids|
  {
    if ids != [] {
      EmptyRestriction(ids[..|ids| - 1], allowed);
    }
  }

  lemma MatchesOfAll(s: Search, alias: string)
    requires NodesFaithful(s.ix, s.cx.nodes)
    ensures OnePerNode(MatchAll(s, [AllNodes(alias)]), s.cx.nodes, alias)
  {
    var clause, order := AllNodes(alias), s.ix.order;
    SingleClause(s.ix, clause, TypedCandidates(s.ix));
    assert TypedCandidates(s.ix)(clause.pattern.start) == order;
    forall b ensures b in MatchAll(s, [clause]) <==> exists id :: id in s.cx.nodes && b == One(alias, id) {
      StartsMember(s.ix, clause.pattern.start, map[], order, order, b);
    }
  }

  /** One clause without links: its start bindings. */
  lemma SingleClause(ix: GraphIndex, clause: Clause, select: NodePattern -> seq<ObjectId>)
    requires clause.pattern.chain == [] && !clause.optional
    ensures MatchClauses(ix, [clause], select, 1) ==
            Starts(ix, clause.pattern.start, map[], select(clause.pattern.start), select(clause.pattern.start))
  {
    var f := Matcher(ix, clause, select(clause.pattern.start));
    var run := Matching(ix, select);
    assert RunClauses([clause], run, 0) == [map[]];
    assert RunClauses([clause], run, 1) == ConcatMap([map[]], f);
    SingleConcat(map[], f);
  }

  lemma SingleConcat(b: Binding, f: Binding -> seq<Binding>)
    ensures ConcatMap([b], f) == f(b)
  {
    assert [b][..0] == [];
    assert ConcatMap([], f) + f(b) == f(b);
  }

  lemma PlannedMatchesNothing(s: Search, alias: string)
    requires CandidatesOf(s, NodePattern(alias, None)) == []
    ensures MatchPlanned(s, [AllNodes(alias)]) == []
  {
    SingleClause(s.ix, AllNodes(alias), PlannedCandidates(s));
  }
}
