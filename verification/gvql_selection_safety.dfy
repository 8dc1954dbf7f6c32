/** Selections that keep what WHERE accepts. */
module GvqlSelectionSafety {
  import opened EncodedGraph
  import opened GvqlValues
  import opened GvqlExpressions
  import opened GvqlIndex
  import opened GvqlIndexKeys
  import opened GvqlAdvancedIndex
  import opened GvqlMatcher
  import opened GvqlPlanner

  /** A bound start is a node of the right type. */
  ghost predicate Fits(cx: Context, start: NodePattern, b: Binding) {
    start.alias in b ==> b[start.alias] in cx.nodes && MatchesType(cx.nodes, b[start.alias], start.typeName)
  }

  ghost predicate Selected(start: NodePattern, ids: set<ObjectId>, b: Binding) {
    start.alias in b && b[start.alias] in ids
  }

  /** Every binding WHERE accepts has its start in the selection. */
  ghost predicate Keeps(cx: Context, start: NodePattern, where: Condition, ids: set<ObjectId>) {
    forall b: Binding | Fits(cx, start, b) && Decide(cx, b, where) == Some(true) :: Selected(start, ids, b)
  }

  // What the indexes promise.

  ghost predicate NodesFaithful(ix: GraphIndex, nodes: map<ObjectId, EncodedNode>) {
    && ix.nodes == nodes
    && (forall id :: id in ix.order <==> id in nodes)
    && (forall t, id :: id in Bucket(ix.byType, t) <==> id in nodes && TypeOf(nodes[id]) == Some(t))
  }

  ghost predicate PropertiesFaithful(ix: GraphIndex, nodes: map<ObjectId, EncodedNode>, rt: Runtime) {
    forall key, id :: id in Bucket(ix.byProperty, key) <==>
           id in nodes && NodeIndexedUnder(ix.mode, StableKeys(rt), nodes[id], key)
  }

  ghost predicate AdvancedFaithful(ax: AdvancedIndex, order: seq<ObjectId>, nodes: map<ObjectId, EncodedNode>,
                                   rt: Runtime) {
    AdvancedOf(ax, rt, nodes, Pairs(order, ax.definitions))
  }

  ghost predicate SearchReady(s: Search) {
    && HostLanguage(s.cx.runtime) && s.cx.indexed == s.cx.nodes
    && NodesFaithful(s.ix, s.cx.nodes) && PropertiesFaithful(s.ix, s.cx.nodes, s.cx.runtime)
    && (s.advanced.Some? ==> AdvancedFaithful(s.advanced.value, s.ix.order, s.cx.nodes, s.cx.runtime))
  }

  lemma {:induction false} OfTypeMember(order: seq<ObjectId>, nodes: map<ObjectId, EncodedNode>, t: string,
                                        id: ObjectId)
    requires forall x | x in order :: x in nodes
    ensures id in OfType(order, nodes, t) <==> id in order && TypeOf(nodes[id]) == Some(t)
    decreases |order|
  {
    if order != [] {
      OfTypeMember(order[..|order| - 1], nodes, t, id);
      assert order == order[..|order| - 1] + [order[|order| - 1]];
    }
  }

  /** The built indexes keep those promises. */
  lemma BuiltIndexIsFaithful(ix: GraphIndex, e: Envelope, order: seq<ObjectId>, mode: PropertyMode, rt: Runtime)
    requires IndexOf(ix, e, order, mode, StableKeys(rt))
    ensures NodesFaithful(ix, e.nodes) && PropertiesFaithful(ix, e.nodes, rt)
  {
    forall t, id ensures id in Bucket(ix.byType, t) <==> id in e.nodes && TypeOf(e.nodes[id]) == Some(t) {
      OfTypeMember(order, e.nodes, t, id);
    }
  }

  // The guards.

  predicate PlainPath(path: Path) {
    path.shape.Name? && path.text != ID_PATH && path.text != KIND_PATH && path.text != TYPE_PATH
  }

  /** The property index lists every node of the type that has the property. */
  predicate PropertyComplete(ix: GraphIndex, typeName: Option<string>, path: string) {
    ShouldIndex(ix.mode, typeName, path)
  }

  /**
   * No constant is undefined; the path is `$id`, `$type`, or a plain one the property index is complete for if it is
   * used.
   */
  predicate ItemUsable(s: Search, typeName: Option<string>, item: Indexable) {
    && JsUndefined !in item.values
    && (item.path.text == ID_PATH || item.path.text == TYPE_PATH ||
        (PlainPath(item.path) &&
         (PropertyAvailable(s.ix, item.path.text, Keys(s.cx.runtime, typeName, item)) ==>
          PropertyComplete(s.ix, typeName, item.path.text))))
  }

  /** The definition covers every node of the pattern's type. */
  ghost predicate DefinitionUsable(rt: Runtime, typeName: Option<string>, d: Definition) {
    && (d.typeName.None? || d.typeName == typeName)
    && d.partial.None?
    && (forall path | path in d.paths :: PlainPath(path))
    && (d.kind.Computed? ==> forall t :: rt.localeLower(t) == rt.lower(t) && rt.localeUpper(t) == rt.upper(t))
  }

  ghost predicate TupleUsable(cx: Context, typeName: Option<string>, equalities: map<Path, JsValue>, d: Definition) {
    && DefinitionUsable(cx.runtime, typeName, d)
    && forall path | path in d.paths && path in equalities ::
         equalities[path] != JsUndefined && (d.sparse ==> equalities[path] != JsNull)
  }

  /**
   * Computed keys: the constant is not null. Ranges: a missing value would not pass. Text: the needle is short enough
   * and normal forms keep its pieces in place. Full-text selections are never relied on.
   */
  ghost predicate PredicateUsable(cx: Context, typeName: Option<string>, p: Predicate, d: Definition)
    requires ConstantOf(cx, p).Some?
  {
    var v := ConstantOf(cx, p).value;
    && DefinitionUsable(cx.runtime, typeName, d)
    && match d.kind
       case Computed => v != JsNull
       case Range => !Holds(cx, JsUndefined, p.operator, v)
       case TextTerms =>
         && AffixListed(p.operator, cx.runtime.normalize(TextOf(cx.runtime, v), d.text.caseSensitive))
         && FormsKeep(cx.runtime, p.operator, TextOf(cx.runtime, v), d.text)
       case _ => false
  }

  ghost predicate AdvancedUsable(s: Search, start: NodePattern) {
    s.advanced.Some? && s.where.Some? && Flatten(s.where.value, AllOf).Some? ==>
      var ps, ax := Flatten(s.where.value, AllOf).value, s.advanced.value;
      && (forall d | d in ax.definitions && SelectTuple(s.cx, ax, start.typeName, Equalities(s.cx, start.alias, ps),
                                                        d).Some? ::
           TupleUsable(s.cx, start.typeName, Equalities(s.cx, start.alias, ps), d))
      && (forall p, d | p in ps && d in ax.definitions && SelectPredicate(s.cx, ax, start, p, d).Some? ::
           PredicateUsable(s.cx, start.typeName, p, d))
  }

  ghost predicate PropertiesUsable(s: Search, start: NodePattern) {
    s.where.Some? && IndexableSetOf(s.cx, start.alias, s.where.value).Some? ==>
      forall item | item in IndexableSetOf(s.cx, start.alias, s.where.value).value.items ::
             ItemUsable(s, start.typeName, item)
  }

  // Flattened conditions.

  lemma {:induction false} ConjunctsHold(cx: Context, b: Binding, c: Condition, p: Predicate)
    requires Flatten(c, AllOf).Some? && Decide(cx, b, c) == Some(true) && p in Flatten(c, AllOf).value
    ensures DecidePredicate(cx, b, p) == Some(true)
  {
    if c.And? {
      if p in Flatten(c.first, AllOf).value {
        ConjunctsHold(cx, b, c.first, p);
      } else {
        ConjunctsHold(cx, b, c.second, p);
      }
    }
  }

  lemma {:induction false} DisjunctHolds(cx: Context, b: Binding, c: Condition) returns (p: Predicate)
    requires Flatten(c, AnyOf).Some? && Decide(cx, b, c) == Some(true)
    ensures p in Flatten(c, AnyOf).value && DecidePredicate(cx, b, p) == Some(true)
  {
    match c
    case Test(q) => p := q;
    case Or(l, r) =>
      if Decide(cx, b, l) == Some(true) {
        p := DisjunctHolds(cx, b, l);
      } else {
        p := DisjunctHolds(cx, b, r);
      }
  }

  // Property and metadata selections.

  /** A served predicate that holds reads one of its constants. */
  lemma ItemHolds(cx: Context, b: Binding, alias: string, p: Predicate, item: Indexable) returns (v: JsValue)
    requires IndexableItem(cx, alias, p) == Some(item) && DecidePredicate(cx, b, p) == Some(true)
    ensures v in item.values && SameValueZero(v, ReadPath(cx, b, alias, Some(item.path)))
  {
    var right := LiteralToJs(cx.parameters, p.right.literal);
    if p.operator.Equal? {
      v := right;
    } else {
      var i :| 0 <= i < |right.items| && SameValueZero(right.items[i], ReadPath(cx, b, alias, Some(item.path)));
      v := right.items[i];
    }
  }

  /** A node whose plain property has the value is in the value's bucket. */
  lemma PropertyListed(s: Search, typeName: Option<string>, id: ObjectId, path: Path, v: JsValue)
    requires SearchReady(s) && id in s.cx.nodes && MatchesType(s.cx.nodes, id, typeName)
    requires PlainPath(path) && PropertyComplete(s.ix, typeName, path.text)
    requires v != JsUndefined && SameValueZero(v, PathToJs(GetNodePath(s.cx.nodes[id], path)))
    ensures id in Bucket(s.ix.byProperty, PropertyIndexKey(typeName, path.text, StableKey(s.cx.runtime, v)))
  {
    var node, key := s.cx.nodes[id], PropertyIndexKey(typeName, path.text, StableKey(s.cx.runtime, v));
    FoundProperty(node.props, path.text);
    var i :| 0 <= i < |node.props| && node.props[i] == Property(path.text, FindProperty(node.props, path.text).value);
    EqualValuesShareKey(s.cx.runtime, v, EncodedToJs(node.props[i].value));
    assert IndexedUnder(s.ix.mode, StableKeys(s.cx.runtime), node.typeName, node.props[i], key);
  }

  lemma ItemKeeps(s: Search, start: NodePattern, p: Predicate, item: Indexable, b: Binding)
    requires SearchReady(s) && IndexableItem(s.cx, start.alias, p) == Some(item) && ItemUsable(s, start.typeName, item)
    requires Fits(s.cx, start, b) && DecidePredicate(s.cx, b, p) == Some(true)
    ensures Selected(start, SelectItem(s, start.typeName, item).ids, b)
  {
    var v := ItemHolds(s.cx, b, start.alias, p, item);
    var id := b[start.alias];
    if item.path.text == ID_PATH {
      assert id in IdsOf(s.ix, v);
    } else if item.path.text == TYPE_PATH {
      assert id in IdsOfType(s.ix, v);
    } else if PropertyAvailable(s.ix, item.path.text, Keys(s.cx.runtime, start.typeName, item)) {
      PropertyListed(s, start.typeName, id, item.path, v);
      var i :| 0 <= i < |item.values| && item.values[i] == v;
      assert Keys(s.cx.runtime, start.typeName, item)[i] in Keys(s.cx.runtime, start.typeName, item);
    }
  }

  // Advanced selections.

  lemma {:induction false} ConstantSame(cx: Context, b: Binding, e: Expression)
    requires !ContainsPath(e)
    ensures Evaluate(cx, b, e) == Evaluate(cx, map[], e)
    decreases e, 1
  {
    match e
    case Binary(_, l, r) => ConstantSame(cx, b, l); ConstantSame(cx, b, r);
    case Call(_, args) => ConstantsSame(cx, b, args, e);
    case Constant(_) =>
  }

  lemma {:induction false} ConstantsSame(cx: Context, b: Binding, es: seq<Expression>, owner: Expression)
    requires forall e | e in es :: e < owner && !ContainsPath(e)
    ensures EvaluateAll(cx, b, es, owner) == EvaluateAll(cx, map[], es, owner)
    decreases owner, 0, |es|
  {
    if es != [] {
      assert es[0] in es && forall e | e in es[1..] :: e in es;
      ConstantSame(cx, b, es[0]);
      ConstantsSame(cx, b, es[1..], owner);
    }
  }

  /** A predicate that holds, with its constant. */
  lemma PredicateReads(cx: Context, b: Binding, p: Predicate)
    requires ConstantOf(cx, p).Some? && DecidePredicate(cx, b, p) == Some(true)
    ensures Evaluate(cx, b, p.left).Some? && Holds(cx, Evaluate(cx, b, p.left).value, p.operator,
                                                   ConstantOf(cx, p).value)
  {
    ConstantSame(cx, b, p.right);
  }

  lemma EqualityServes(cx: Context, alias: string, ps: seq<Predicate>, path: Path) returns (p: Predicate)
    requires path in Equalities(cx, alias, ps)
    ensures p in ps && Equates(cx, alias, p, path) && ConstantOf(cx, p) == Some(Equalities(cx, alias, ps)[path])
  {
    EqualitiesAreLast(cx, alias, ps, path);
    var i: nat :| EquatesLast(cx, alias, ps, path, i) && ConstantOf(cx, ps[i]) == Some(Equalities(cx, alias, ps)[path]);
    p := ps[i];
  }

  /** A value other than undefined at a plain path belongs to a bound object node. */
  lemma PlainRead(cx: Context, b: Binding, alias: string, path: Path)
    requires PlainPath(path) && ReadPath(cx, b, alias, Some(path)) != JsUndefined
    ensures alias in b && b[alias] in cx.nodes && cx.nodes[b[alias]].ObjectNode?
    ensures ReadPath(cx, b, alias, Some(path)) == ReadValue(cx.nodes[b[alias]], path)
  {
  }

  /** Equalities that hold give the node the tuple that was looked up. */
  lemma TupleHolds(cx: Context, b: Binding, c: Condition, alias: string, paths: seq<Path>)
    requires Flatten(c, AllOf).Some? && Decide(cx, b, c) == Some(true) && HostLanguage(cx.runtime) && paths != []
    requires var equalities := Equalities(cx, alias, Flatten(c, AllOf).value);
             forall path | path in paths :: PlainPath(path) && path in equalities && equalities[path] != JsUndefined
    ensures alias in b && b[alias] in cx.nodes && cx.nodes[b[alias]].ObjectNode?
    ensures var equalities := Equalities(cx, alias, Flatten(c, AllOf).value);
            && TupleKey(cx.runtime, ReadValues(cx.nodes[b[alias]], paths)) ==
               TupleKey(cx.runtime, Looked(equalities, paths))
            && forall i | 0 <= i < |paths| :: SameValueZero(ReadValue(cx.nodes[b[alias]], paths[i]),
                                                            equalities[paths[i]])
  {
    var ps := Flatten(c, AllOf).value;
    var equalities := Equalities(cx, alias, ps);
    forall i | 0 <= i < |paths|
      ensures paths[i] in equalities
      ensures alias in b && b[alias] in cx.nodes && cx.nodes[b[alias]].ObjectNode?
      ensures SameValueZero(ReadValue(cx.nodes[b[alias]], paths[i]), equalities[paths[i]])
    {
      var p := EqualityServes(cx, alias, ps, paths[i]);
      ConjunctsHold(cx, b, c, p);
      PredicateReads(cx, b, p);
      PlainRead(cx, b, alias, paths[i]);
    }
    assert paths[0] in paths;
    EqualTuplesShareKey(cx.runtime, ReadValues(cx.nodes[b[alias]], paths), Looked(equalities, paths));
  }

  lemma TupleKeeps(s: Search, start: NodePattern, d: Definition, b: Binding)
    requires SearchReady(s) && s.advanced.Some? && s.where.Some? && Flatten(s.where.value, AllOf).Some?
    requires var ax, equalities := s.advanced.value, Equalities(s.cx, start.alias, Flatten(s.where.value, AllOf).value);
             && d in ax.definitions && SelectTuple(s.cx, ax, start.typeName, equalities, d).Some?
             && TupleUsable(s.cx, start.typeName, equalities, d)
    requires Fits(s.cx, start, b) && Decide(s.cx, b, s.where.value) == Some(true)
    ensures var equalities := Equalities(s.cx, start.alias, Flatten(s.where.value, AllOf).value);
            Selected(start, SelectTuple(s.cx, s.advanced.value, start.typeName, equalities, d).value.ids, b)
  {
    var equalities := Equalities(s.cx, start.alias, Flatten(s.where.value, AllOf).value);
    TupleHolds(s.cx, b, s.where.value, start.alias, d.paths);
    TupleListed(s, d, b[start.alias], TupleKey(s.cx.runtime, Looked(equalities, d.paths)), start.typeName, equalities);
  }

  /** A node with the tuple is in the tuple's bucket and owns its unique key. */
  lemma TupleListed(s: Search, d: Definition, id: ObjectId, key: string, typeName: Option<string>,
                    equalities: map<Path, JsValue>)
    requires SearchReady(s) && s.advanced.Some? && d in s.advanced.value.definitions &&
             (d.kind.UniqueKey? || d.kind.Composite?)
    requires id in s.cx.nodes && s.cx.nodes[id].ObjectNode? && MatchesType(s.cx.nodes, id, typeName) && d.paths != []
    requires (forall path | path in d.paths :: path in equalities) && TupleUsable(s.cx, typeName, equalities, d)
    requires key == TupleKey(s.cx.runtime, ReadValues(s.cx.nodes[id], d.paths))
    requires forall i | 0 <= i < |d.paths| :: SameValueZero(ReadValue(s.cx.nodes[id], d.paths[i]),
                                                            equalities[d.paths[i]])
    ensures d.kind.UniqueKey? ==>
              var at := Slot(d.kind, d.name, key);
              at in s.advanced.value.unique && s.advanced.value.unique[at] == id
    ensures d.kind.Composite? ==> id in Ids(s.advanced.value, Slot(d.kind, d.name, key))
  {
    var ax, rt, node, at := s.advanced.value, s.cx.runtime, s.cx.nodes[id], Slot(d.kind, d.name, key);
    var done := Pairs(s.ix.order, ax.definitions);
    assert (id, d) in done;
    assert Lists(rt, d, node);
    if d.kind.UniqueKey? {
      assert ClaimsKey(rt, d, node, key);
      assert ClaimedBy(rt, s.cx.nodes, done, at, id);
    } else {
      assert ListsUnder(rt, d, node, key);
      assert ListedBy(rt, s.cx.nodes, done, at, id);
    }
  }

  lemma ListedInBucket(s: Search, d: Definition, id: ObjectId, key: string)
    requires SearchReady(s) && s.advanced.Some? && d in s.advanced.value.definitions && id in s.cx.nodes
    requires ListsUnder(s.cx.runtime, d, s.cx.nodes[id], key)
    ensures id in Ids(s.advanced.value, Slot(d.kind, d.name, key))
  {
    var done := Pairs(s.ix.order, s.advanced.value.definitions);
    assert (id, d) in done;
    assert ListedBy(s.cx.runtime, s.cx.nodes, done, Slot(d.kind, d.name, key), id);
  }

  /** A predicate that holds of a well-typed start, and the usable selection a definition offers for it. */
  ghost predicate SelectsFor(s: Search, start: NodePattern, p: Predicate, d: Definition, b: Binding) {
    && SearchReady(s) && s.advanced.Some? && d in s.advanced.value.definitions
    && SelectPredicate(s.cx, s.advanced.value, start, p, d).Some?
    && PredicateUsable(s.cx, start.typeName, p, d)
    && Fits(s.cx, start, b) && DecidePredicate(s.cx, b, p) == Some(true)
  }

  lemma ComputedKeeps(s: Search, start: NodePattern, p: Predicate, d: Definition, b: Binding)
    requires SelectsFor(s, start, p, d, b) && d.kind.Computed?
    ensures Selected(start, SelectPredicate(s.cx, s.advanced.value, start, p, d).value.ids, b)
  {
    PredicateReads(s.cx, b, p);
    var path, v := d.paths[0], ConstantOf(s.cx, p).value;
    assert path in d.paths;
    var read := ReadPath(s.cx, b, start.alias, Some(path));
    ComputedReads(s.cx, b, p.left);
    PlainRead(s.cx, b, start.alias, path);
    var id := b[start.alias];
    var node := s.cx.nodes[id];
    assert DefinedValues(s.cx.runtime, node, d) == [ComputedValue(s.cx.runtime, node, d.fn, path)];
    assert ComputedValue(s.cx.runtime, node, d.fn, path) == Scalar(s.cx, d.fn, read);
    EqualValuesShareKey(s.cx.runtime, Scalar(s.cx, d.fn, read), v);
    ListedInBucket(s, d, id, StableKey(s.cx.runtime, v));
  }

  /** A one-argument call on a path is its scalar function of the value read. */
  lemma ComputedReads(cx: Context, b: Binding, e: Expression)
    requires e.Call? && !e.fn.Coalesce? && |e.args| == 1 && e.args[0].PathOf?
    ensures Evaluate(cx, b, e) == Some(Scalar(cx, e.fn, ReadPath(cx, b, e.args[0].alias, e.args[0].path)))
  {
    var read := ReadPath(cx, b, e.args[0].alias, e.args[0].path);
    assert e.args[1..] == [];
    assert EvaluateAll(cx, b, e.args[1..], e) == Some([]);
    assert Evaluate(cx, b, e.args[0]) == Some(read);
    assert EvaluateAll(cx, b, e.args, e) == Some([read] + []);
  }

  lemma RangeKeeps(s: Search, start: NodePattern, p: Predicate, d: Definition, b: Binding)
    requires SelectsFor(s, start, p, d, b) && d.kind.Range?
    ensures Selected(start, SelectPredicate(s.cx, s.advanced.value, start, p, d).value.ids, b)
  {
    PredicateReads(s.cx, b, p);
    var path, v := d.paths[0], ConstantOf(s.cx, p).value;
    assert path in d.paths;
    var read := ReadPath(s.cx, b, start.alias, Some(path));
    NullishCompareAlike(s.cx, read, p.operator, v);
    PlainRead(s.cx, b, start.alias, path);
    RangeListed(s, d, b[start.alias], path, p.operator, v);
  }

  /** A node whose value stands in the relation is in a bucket whose value does. */
  lemma RangeListed(s: Search, d: Definition, id: ObjectId, path: Path, operator: Operator, v: JsValue)
    requires SearchReady(s) && s.advanced.Some? && d in s.advanced.value.definitions && d.kind.Range?
    requires id in s.cx.nodes && Lists(s.cx.runtime, d, s.cx.nodes[id]) && d.paths[0] == path
    requires IsRangeOperator(operator) && !IsNullish(ReadValue(s.cx.nodes[id], path))
    requires Holds(s.cx, ReadValue(s.cx.nodes[id], path), operator, v)
    ensures id in RangeLookup(s.cx, s.advanced.value, d.name, operator, v)
  {
    var ax, read := s.advanced.value, ReadValue(s.cx.nodes[id], path);
    var at := Slot(Range, d.name, StableKey(s.cx.runtime, read));
    assert DefinedValues(s.cx.runtime, s.cx.nodes[id], d)[0] == read;
    ListedInBucket(s, d, id, at.key);
    SharedKeyComparesAlike(s.cx, ax.raw[at], read, v);
    assert Holds(s.cx, ax.raw[at], operator, v);
  }

  /** A missing value compares as undefined does. */
  lemma NullishCompareAlike(cx: Context, a: JsValue, operator: Operator, v: JsValue)
    requires IsRangeOperator(operator) || IsTextOperator(operator)
    ensures IsNullish(a) ==> Holds(cx, a, operator, v) == Holds(cx, JsUndefined, operator, v)
  {
  }

  lemma TextKeeps(s: Search, start: NodePattern, p: Predicate, d: Definition, b: Binding)
    requires SelectsFor(s, start, p, d, b) && d.kind.TextTerms?
    ensures Selected(start, SelectPredicate(s.cx, s.advanced.value, start, p, d).value.ids, b)
  {
    PredicateReads(s.cx, b, p);
    var rt, path, v := s.cx.runtime, d.paths[0], ConstantOf(s.cx, p).value;
    assert path in d.paths;
    var read := ReadPath(s.cx, b, start.alias, Some(path));
    var needle := rt.normalize(TextOf(rt, v), d.text.caseSensitive);
    PlainRead(s.cx, b, start.alias, path);
    var id := b[start.alias];
    assert DefinedValues(rt, s.cx.nodes[id], d)[0] == read;
    var text := rt.normalize(TextOf(rt, read), d.text.caseSensitive);
    assert TextHolds(p.operator, TextOf(rt, read), TextOf(rt, v));
    TermsListedIff(rt, p.operator, text, needle, d.text);
    TermsSelect(s, d, id, LookupTerms(p.operator, needle, d.text), read);
  }

  lemma TermsSelect(s: Search, d: Definition, id: ObjectId, terms: seq<string>, read: JsValue)
    requires SearchReady(s) && s.advanced.Some? && d in s.advanced.value.definitions && id in s.cx.nodes &&
             d.kind.TextTerms?
    requires Lists(s.cx.runtime, d, s.cx.nodes[id]) && DefinedValues(s.cx.runtime, s.cx.nodes[id], d)[0] == read &&
             terms != []
    requires var text := s.cx.runtime.normalize(TextOf(s.cx.runtime, read), d.text.caseSensitive);
             forall term | term in terms :: IsIndexTerm(s.cx.runtime, text, d.text, term)
    ensures id in TermLookup(s.advanced.value, TextTerms, d.name, TermSet(terms))
  {
    forall term | term in terms ensures id in Ids(s.advanced.value, Slot(TextTerms, d.name, term)) {
      ListedInBucket(s, d, id, term);
    }
    assert terms[0] in TermSet(terms);
  }

  lemma PredicateKeeps(s: Search, start: NodePattern, p: Predicate, d: Definition, b: Binding)
    requires SelectsFor(s, start, p, d, b)
    ensures Selected(start, SelectPredicate(s.cx, s.advanced.value, start, p, d).value.ids, b)
  {
    match d.kind
    case Computed => ComputedKeeps(s, start, p, d, b);
    case Range => RangeKeeps(s, start, p, d, b);
    case TextTerms => TextKeeps(s, start, p, d, b);
  }
}
