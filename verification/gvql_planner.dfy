/** Choosing start candidates for a pattern. */
module GvqlPlanner {
  import opened EncodedGraph
  import opened GvqlValues
  import opened GvqlExpressions
  import opened GvqlIndex
  import opened GvqlIndexKeys
  import opened GvqlAdvancedIndex
  import opened GvqlMatcher
  import opened Folding

  /** Everything planning looks at besides the pattern. */
  datatype Search = Search(cx: Context, ix: GraphIndex, advanced: Option<AdvancedIndex>, where: Option<Condition>)

  /** How the usable predicates are joined. */
  datatype Mode = AllOf | AnyOf

  datatype Source = FullScan | PropertyBuckets | IdLookup | TypeLookup | Advanced(kind: Kind)

  datatype Selection = Selection(source: Source, ids: set<ObjectId>)

  datatype Indexable = Indexable(path: Path, values: seq<JsValue>)

  datatype IndexableSet = IndexableSet(mode: Mode, items: seq<Indexable>)

  function Elements(ids: seq<ObjectId>): set<ObjectId> {
    set id | id in ids
  }

  // Predicates of WHERE that a property or metadata index can serve.

  /** `flattenLogicalPredicates`: the leaves, when only this connective is used. */
  function Flatten(c: Condition, mode: Mode): Option<seq<Predicate>> {
    match c
    case Test(p) => Some([p])
    case Not(_) => None
    case And(l, r) => if mode.AllOf? then Joined(Flatten(l, mode), Flatten(r, mode)) else None
    case Or(l, r) => if mode.AnyOf? then Joined(Flatten(l, mode), Flatten(r, mode)) else None
  }

  function Joined<T>(a: Option<seq<T>>, b: Option<seq<T>>): Option<seq<T>> {
    if a.None? || b.None? then None else Some(a.value + b.value)
  }

  predicate OnAlias(e: Expression, alias: string) {
    e.PathOf? && e.alias == alias && e.path.Some?
  }

  /** `alias.path = literal` or `alias.path IN literals`. */
  function IndexableItem(cx: Context, alias: string, p: Predicate): Option<Indexable> {
    if !OnAlias(p.left, alias) || !p.right.Constant? then None
    else
      var v := LiteralToJs(cx.parameters, p.right.literal);
      if p.operator.Equal? then Some(Indexable(p.left.path.value, [v]))
      else if p.operator.In? && v.JsArray? && v.items != [] then Some(Indexable(p.left.path.value, v.items))
      else None
  }

  function IndexableItems(cx: Context, alias: string, ps: seq<Predicate>): seq<Indexable> {
    if ps == [] then []
    else
      var item := IndexableItem(cx, alias, ps[|ps| - 1]);
      IndexableItems(cx, alias, ps[..|ps| - 1]) + (if item.Some? then [item.value] else [])
  }

  function ChosenMode(c: Condition): Option<Mode> {
    if c.Test? then Some(AllOf)
    else if Flatten(c, AnyOf).Some? then Some(AnyOf)
    else if Flatten(c, AllOf).Some? then Some(AllOf)
    else None
  }

  function IndexableSetOf(cx: Context, alias: string, c: Condition): Option<IndexableSet> {
    var mode := ChosenMode(c);
    if mode.None? || Flatten(c, mode.value).None? then None
    else
      var ps := Flatten(c, mode.value).value;
      var items := IndexableItems(cx, alias, ps);
      if (mode.value.AnyOf? && |items| != |ps|) || items == [] then None else Some(IndexableSet(mode.value, items))
  }

  predicate Serves(cx: Context, alias: string, p: Predicate) {
    IndexableItem(cx, alias, p).Some?
  }

  lemma {:induction false} ItemsServed(cx: Context, alias: string, ps: seq<Predicate>)
    ensures forall item :: item in IndexableItems(cx, alias, ps) <==>
              exists p | p in ps :: IndexableItem(cx, alias, p) == Some(item)
    ensures |IndexableItems(cx, alias, ps)| <= |ps|
    ensures |IndexableItems(cx, alias, ps)| == |ps| <==> forall p | p in ps :: Serves(cx, alias, p)
    decreases |ps|
  {
    if ps != [] {
      var front, last := ps[..|ps| - 1], ps[|ps| - 1];
      ItemsServed(cx, alias, front);
      assert ps == front + [last];
      assert last in ps && forall p :: p in ps <==> p in front || p == last;
    }
  }

  lemma {:induction false} FlattenedSome(c: Condition, mode: Mode)
    ensures Flatten(c, mode).Some? ==> Flatten(c, mode).value != []
  {
    match c
    case And(l, r) => FlattenedSome(l, mode);
    case Or(l, r) => FlattenedSome(l, mode);
    case _ =>
  }

  /**
   * The items of the flattened predicates an index can serve, joined as the condition joins them. One served predicate
   * of a conjunction is enough; a disjunction needs all of its predicates served.
   */
  lemma IndexableExact(cx: Context, alias: string, c: Condition)
    ensures IndexableSetOf(cx, alias, c).Some? <==>
            && ChosenMode(c).Some?
            && var ps := Flatten(c, ChosenMode(c).value).value;
               if ChosenMode(c).value.AnyOf? then forall p | p in ps :: Serves(cx, alias, p)
               else exists p | p in ps :: Serves(cx, alias, p)
    ensures IndexableSetOf(cx, alias, c).Some? ==>
            && ChosenMode(c) == Some(IndexableSetOf(cx, alias, c).value.mode)
            && forall item :: item in IndexableSetOf(cx, alias, c).value.items <==>
                 exists p | p in Flatten(c, ChosenMode(c).value).value :: IndexableItem(cx, alias, p) == Some(item)
  {
    if ChosenMode(c).Some? {
      var ps := Flatten(c, ChosenMode(c).value).value;
      FlattenedSome(c, ChosenMode(c).value);
      ItemsServed(cx, alias, ps);
      NoItemsServed(cx, alias, ps, IndexableItems(cx, alias, ps));
    }
  }

  lemma NoItemsServed(cx: Context, alias: string, ps: seq<Predicate>, items: seq<Indexable>)
    requires items == IndexableItems(cx, alias, ps)
    ensures items == [] <==> !exists p | p in ps :: Serves(cx, alias, p)
  {
    ItemsServed(cx, alias, ps);
    if items != [] {
      assert items[0] in items;
    }
    if p :| p in ps && Serves(cx, alias, p) {
      assert IndexableItem(cx, alias, p).value in items;
    }
  }

  /** `indexablePredicates`. */
  method IndexablePredicates(cx: Context, alias: string, c: Condition) returns (r: Option<IndexableSet>)
    ensures r == IndexableSetOf(cx, alias, c)
  {
    var mode := ChosenMode(c);
    if mode.None? {
      return None;
    }
    var flat := Flatten(c, mode.value);
    if flat.None? {
      return None;
    }
    var ps := flat.value;
    var items: seq<Indexable> := [];
    for i := 0 to |ps|
      invariant items == IndexableItems(cx, alias, ps[..i])
    {
      Chopped(ps, i);
      var item := IndexableItem(cx, alias, ps[i]);
      if item.Some? {
        items := items + [item.value];
      }
    }
    assert ps[..|ps|] == ps;
    r := if (mode.value.AnyOf? && |items| != |ps|) || items == [] then None else Some(IndexableSet(mode.value, items));
  }

  function Keys(rt: Runtime, typeName: Option<string>, item: Indexable): seq<string> {
    seq(|item.values|, i requires 0 <= i < |item.values| =>
      PropertyIndexKey(typeName, item.path.text, StableKey(rt, item.values[i])))
  }

  /** `propertyIndexAvailable`. */
  predicate PropertyAvailable(ix: GraphIndex, path: string, keys: seq<string>) {
    || ix.mode.AllProperties?
    || (exists key | key in keys :: key in ix.byProperty)
    || PropertyKey(None, path) in ix.indexedKeys
  }

  function IdsOf(ix: GraphIndex, v: JsValue): set<ObjectId> {
    set id | id in ix.order && v == JsString(Decimal(id))
  }

  function IdsOfType(ix: GraphIndex, v: JsValue): set<ObjectId> {
    if v.JsString? then Elements(Bucket(ix.byType, v.text)) else {}
  }

  /** `indexedCandidateSelection`. */
  function SelectItem(s: Search, typeName: Option<string>, item: Indexable): Selection {
    var keys := Keys(s.cx.runtime, typeName, item);
    if item.path.text == ID_PATH then
      Selection(IdLookup, set v, id | v in item.values && id in IdsOf(s.ix, v) :: id)
    else if item.path.text == TYPE_PATH then
      Selection(TypeLookup, set v, id | v in item.values && id in IdsOfType(s.ix, v) :: id)
    else if !PropertyAvailable(s.ix, item.path.text, keys) then Selection(FullScan, Elements(s.ix.order))
    else Selection(PropertyBuckets, set key, id | key in keys && id in Bucket(s.ix.byProperty, key) :: id)
  }

  function SelectItems(s: Search, typeName: Option<string>, items: seq<Indexable>): seq<Selection> {
    seq(|items|, i requires 0 <= i < |items| => SelectItem(s, typeName, items[i]))
  }

  // Advanced indexes.

  predicate ContainsPath(e: Expression) {
    match e
    case PathOf(_, _) => true
    case Binary(_, l, r) => ContainsPath(l) || ContainsPath(r)
    case Call(_, args) => exists i | 0 <= i < |args| :: ContainsPath(args[i])
    case Case(_, _) => true
    case Constant(_) => false
  }

  predicate TypeFits(d: Definition, typeName: Option<string>) {
    d.typeName.None? || typeName.None? || d.typeName == typeName
  }

  predicate IsRangeOperator(operator: Operator) {
    operator.Greater? || operator.GreaterEqual? || operator.Less? || operator.LessEqual?
  }

  /** The predicates whose right side planning evaluates if it contains no path. */
  predicate ReadsConstant(alias: string, p: Predicate) {
    p.operator.Equal? || ((IsRangeOperator(p.operator) || IsTextOperator(p.operator)) && OnAlias(p.left, alias))
  }

  /** The constant on the right: none if there is a path, or if evaluating it fails. */
  function ConstantOf(cx: Context, p: Predicate): Option<JsValue> {
    if ContainsPath(p.right) then None else Evaluate(cx, map[], p.right)
  }

  /** `equalityPredicates`: the last equality on a path counts. */
  function Equalities(cx: Context, alias: string, ps: seq<Predicate>): map<Path, JsValue> {
    if ps == [] then map[]
    else
      var p := ps[|ps| - 1];
      var before := Equalities(cx, alias, ps[..|ps| - 1]);
      if p.operator.Equal? && OnAlias(p.left, alias) && ConstantOf(cx, p).Some? then
        before[p.left.path.value := ConstantOf(cx, p).value]
      else before
  }

  /** An equality with a constant on this path of the alias. */
  predicate Equates(cx: Context, alias: string, p: Predicate, path: Path) {
    p.operator.Equal? && OnAlias(p.left, alias) && p.left.path.value == path && ConstantOf(cx, p).Some?
  }

  predicate EquatesLast(cx: Context, alias: string, ps: seq<Predicate>, path: Path, i: nat) {
    i < |ps| && Equates(cx, alias, ps[i], path) && forall j | i < j < |ps| :: !Equates(cx, alias, ps[j], path)
  }

  /** The constant of the last equality on the path, if there is any. */
  ghost predicate IsLastConstant(cx: Context, alias: string, ps: seq<Predicate>, path: Path, v: JsValue) {
    exists i: nat :: EquatesLast(cx, alias, ps, path, i) && ConstantOf(cx, ps[i]) == Some(v)
  }

  lemma {:induction false} EqualitiesAreLast(cx: Context, alias: string, ps: seq<Predicate>, path: Path)
    ensures path in Equalities(cx, alias, ps) <==> exists p | p in ps :: Equates(cx, alias, p, path)
    ensures path in Equalities(cx, alias, ps) ==> IsLastConstant(cx, alias, ps, path, Equalities(cx, alias, ps)[path])
    decreases |ps|
  {
    if ps != [] {
      var n, front := |ps| - 1, ps[..|ps| - 1];
      EqualitiesAreLast(cx, alias, front, path);
      assert ps == front + [ps[n]] && ps[n] in ps;
      if Equates(cx, alias, ps[n], path) {
        assert EquatesLast(cx, alias, ps, path, n);
      } else if path in Equalities(cx, alias, ps) {
        var v := Equalities(cx, alias, front)[path];
        var i: nat :| EquatesLast(cx, alias, front, path, i) && ConstantOf(cx, front[i]) == Some(v);
        assert EquatesLast(cx, alias, ps, path, i);
      }
    }
  }

  method EqualityPredicates(cx: Context, alias: string, ps: seq<Predicate>) returns (r: map<Path, JsValue>)
    ensures r == Equalities(cx, alias, ps)
    ensures forall path :: path in r <==> exists p | p in ps :: Equates(cx, alias, p, path)
    ensures forall path | path in r :: IsLastConstant(cx, alias, ps, path, r[path])
  {
    r := map[];
    for i := 0 to |ps|
      invariant r == Equalities(cx, alias, ps[..i])
    {
      Chopped(ps, i);
      if ps[i].operator.Equal? && OnAlias(ps[i].left, alias) {
        var v := ConstantOf(cx, ps[i]);
        if v.Some? {
          r := r[ps[i].left.path.value := v.value];
        }
      }
    }
    assert ps[..|ps|] == ps;
    forall path
      ensures path in r <==> exists p | p in ps :: Equates(cx, alias, p, path)
      ensures path in r ==> IsLastConstant(cx, alias, ps, path, r[path])
    {
      EqualitiesAreLast(cx, alias, ps, path);
    }
  }

  function Looked(equalities: map<Path, JsValue>, paths: seq<Path>): (vs: seq<JsValue>)
    requires forall path | path in paths :: path in equalities
    ensures |vs| == |paths|
  {
    seq(|paths|, i requires 0 <= i < |paths| => equalities[paths[i]])
  }

  /** `uniqueSelections` and `compositeSelections`, for one definition. */
  function SelectTuple(cx: Context, ax: AdvancedIndex, typeName: Option<string>, equalities: map<Path, JsValue>,
                       d: Definition)
    : Option<Selection>
  {
    if !TypeFits(d, typeName) || (exists path | path in d.paths :: path !in equalities) then None
    else
      var key := TupleKey(cx.runtime, Looked(equalities, d.paths));
      var at := Slot(d.kind, d.name, key);
      if d.kind.UniqueKey? && d.paths != [] then
        Some(Selection(Advanced(UniqueKey), if at in ax.unique then {ax.unique[at]} else {}))
      else if d.kind.Composite? && |d.paths| >= 2 then Some(Selection(Advanced(Composite), Ids(ax, at)))
      else None
  }

  /** `rangeLookup`: the buckets whose value stands in the relation. */
  function RangeLookup(cx: Context, ax: AdvancedIndex, name: string, operator: Operator, v: JsValue): set<ObjectId> {
    set at, id | && at in ax.buckets && at.kind.Range? && at.name == name
                 && at in ax.raw && Holds(cx, ax.raw[at], operator, v)
                 && id in ax.buckets[at] :: id
  }

  /** `intersectTermBuckets`. */
  function TermLookup(ax: AdvancedIndex, kind: Kind, name: string, terms: set<string>): set<ObjectId> {
    set first, id | first in terms && id in Ids(ax, Slot(kind, name, first))
                    && forall term | term in terms :: id in Ids(ax, Slot(kind, name, term)) :: id
  }

  /** `lower(alias.path)` and its like. */
  predicate IsComputed(e: Expression, alias: string, d: Definition) {
    && e.Call? && !e.fn.Coalesce? && |e.args| == 1 && OnAlias(e.args[0], alias)
    && d.fn == e.fn && d.paths == [e.args[0].path.value]
  }

  /** The computed, range, text and full-text selections, for one predicate and one definition. */
  function SelectPredicate(cx: Context, ax: AdvancedIndex, start: NodePattern, p: Predicate,
                           d: Definition): Option<Selection> {
    var v := ConstantOf(cx, p);
    if v.None? || !TypeFits(d, start.typeName) then None
    else if d.kind.Computed? && p.operator.Equal? && IsComputed(p.left, start.alias, d) then
      Some(Selection(Advanced(Computed), Ids(ax, Slot(Computed, d.name, StableKey(cx.runtime, v.value)))))
    else if !OnAlias(p.left, start.alias) || d.paths != [p.left.path.value] then None
    else if d.kind.Range? && IsRangeOperator(p.operator) then
      Some(Selection(Advanced(Range), RangeLookup(cx, ax, d.name, p.operator, v.value)))
    else
      var needle := cx.runtime.normalize(TextOf(cx.runtime, v.value), d.text.caseSensitive);
      if d.kind.TextTerms? && IsTextOperator(p.operator) && LookupTerms(p.operator, needle, d.text) != [] then
        var terms := TermSet(LookupTerms(p.operator, needle, d.text));
        Some(Selection(Advanced(TextTerms), TermLookup(ax, TextTerms, d.name, terms)))
      else if d.kind.FullText? && p.operator.Contains? && cx.runtime.tokens(needle) != {} then
        Some(Selection(Advanced(FullText), TermLookup(ax, FullText, d.name, cx.runtime.tokens(needle))))
      else None
  }

  function TermSet(terms: seq<string>): set<string> {
    set term | term in terms
  }

  function SelectTuples(cx: Context, ax: AdvancedIndex, typeName: Option<string>, equalities: map<Path, JsValue>,
                        ds: seq<Definition>)
    : seq<Selection>
  {
    if ds == [] then []
    else
      var last := SelectTuple(cx, ax, typeName, equalities, ds[|ds| - 1]);
      SelectTuples(cx, ax, typeName, equalities, ds[..|ds| - 1]) + (if last.Some? then [last.value] else [])
  }

  function SelectDefinitions(cx: Context, ax: AdvancedIndex, start: NodePattern, p: Predicate,
                             ds: seq<Definition>): seq<Selection> {
    if ds == [] then []
    else
      var last := SelectPredicate(cx, ax, start, p, ds[|ds| - 1]);
      SelectDefinitions(cx, ax, start, p, ds[..|ds| - 1]) + (if last.Some? then [last.value] else [])
  }

  function SelectPredicates(cx: Context, ax: AdvancedIndex, start: NodePattern, ps: seq<Predicate>): seq<Selection> {
    if ps == [] then []
    else
      SelectPredicates(cx, ax, start, ps[..|ps| - 1]) +
      SelectDefinitions(cx, ax, start, ps[|ps| - 1], ax.definitions)
  }

  lemma {:induction false} TupleOffered(cx: Context, ax: AdvancedIndex, typeName: Option<string>,
                                        equalities: map<Path, JsValue>,
                                        ds: seq<Definition>, x: Selection)
    ensures x in SelectTuples(cx, ax, typeName, equalities, ds) <==>
            exists d | d in ds :: SelectTuple(cx, ax, typeName, equalities, d) == Some(x)
    decreases |ds|
  {
    if ds != [] {
      TupleOffered(cx, ax, typeName, equalities, ds[..|ds| - 1], x);
      assert ds == ds[..|ds| - 1] + [ds[|ds| - 1]];
    }
  }

  lemma {:induction false} DefinitionOffered(cx: Context, ax: AdvancedIndex, start: NodePattern, p: Predicate,
                                             ds: seq<Definition>,
                                             x: Selection)
    ensures x in SelectDefinitions(cx, ax, start, p, ds) <==>
            exists d | d in ds :: SelectPredicate(cx, ax, start, p, d) == Some(x)
    decreases |ds|
  {
    if ds != [] {
      DefinitionOffered(cx, ax, start, p, ds[..|ds| - 1], x);
      assert ds == ds[..|ds| - 1] + [ds[|ds| - 1]];
    }
  }

  /** Some definition offers the selection for the predicate. */
  predicate OfferedFor(cx: Context, ax: AdvancedIndex, start: NodePattern, p: Predicate, x: Selection) {
    exists d | d in ax.definitions :: SelectPredicate(cx, ax, start, p, d) == Some(x)
  }

  lemma {:induction false} PredicateOffered(cx: Context, ax: AdvancedIndex, start: NodePattern, ps: seq<Predicate>,
                                            x: Selection)
    ensures x in SelectPredicates(cx, ax, start, ps) <==> exists p | p in ps :: OfferedFor(cx, ax, start, p, x)
    decreases |ps|
  {
    if ps != [] {
      var front, last := ps[..|ps| - 1], ps[|ps| - 1];
      PredicateOffered(cx, ax, start, front, x);
      DefinitionOffered(cx, ax, start, last, ax.definitions, x);
      assert x in SelectPredicates(cx, ax, start, ps) <==>
             x in SelectPredicates(cx, ax, start, front) || x in SelectDefinitions(cx, ax, start, last, ax.definitions);
      assert OfferedFor(cx, ax, start, last, x) <==> x in SelectDefinitions(cx, ax, start, last, ax.definitions);
      assert ps == front + [last] && forall p :: p in ps <==> p in front || p == last;
    }
  }

  /** Some definition offers the selection for the equalities, or for one conjunct. */
  predicate Offered(s: Search, start: NodePattern, x: Selection) {
    && s.advanced.Some? && s.where.Some? && Flatten(s.where.value, AllOf).Some?
    && var ps, ax := Flatten(s.where.value, AllOf).value, s.advanced.value;
       || (exists d | d in ax.definitions :: SelectTuple(s.cx, ax, start.typeName, Equalities(s.cx, start.alias, ps),
                                                         d) == Some(x))
       || exists p | p in ps :: OfferedFor(s.cx, ax, start, p, x)
  }

  lemma SelectionsOffered(s: Search, start: NodePattern, x: Selection)
    ensures x in AdvancedSelections(s, start) <==> Offered(s, start, x)
  {
    if s.advanced.Some? && s.where.Some? && Flatten(s.where.value, AllOf).Some? {
      var ps, ax := Flatten(s.where.value, AllOf).value, s.advanced.value;
      TupleOffered(s.cx, ax, start.typeName, Equalities(s.cx, start.alias, ps), ax.definitions, x);
      PredicateOffered(s.cx, ax, start, ps, x);
    }
  }

  predicate ConstantFails(cx: Context, alias: string, p: Predicate) {
    ReadsConstant(alias, p) && !ContainsPath(p.right) && Evaluate(cx, map[], p.right).None?
  }

  /** Evaluating some constant of the condition fails, and planning with it. */
  ghost predicate PlanningFails(s: Search, start: NodePattern) {
    exists u {:trigger Unfold(u)} :: && Unfold(u) && s.advanced.Some? && s.where.Some?
                                     && Flatten(s.where.value, AllOf).Some?
                                     && exists p | p in Flatten(s.where.value, AllOf).value ::
                                          ConstantFails(s.cx, start.alias, p)
  }

  method CheckConstants(s: Search, start: NodePattern) returns (fails: bool)
    ensures fails == PlanningFails(s, start)
  {
    assert Unfold(true);
    if s.advanced.None? || s.where.None? {
      return false;
    }
    var flat := Flatten(s.where.value, AllOf);
    if flat.None? {
      return false;
    }
    for i := 0 to |flat.value|
      invariant forall j | 0 <= j < i :: !ConstantFails(s.cx, start.alias, flat.value[j])
    {
      if ConstantFails(s.cx, start.alias, flat.value[i]) {
        return true;
      }
    }
    fails := false;
  }

  /** `advancedIndexSelections`. */
  function AdvancedSelections(s: Search, start: NodePattern): seq<Selection> {
    if s.advanced.None? || s.where.None? || Flatten(s.where.value, AllOf).None? then []
    else
      var ps := Flatten(s.where.value, AllOf).value;
      SelectTuples(s.cx, s.advanced.value, start.typeName, Equalities(s.cx, start.alias, ps),
                   s.advanced.value.definitions) +
      SelectPredicates(s.cx, s.advanced.value, start, ps)
  }

  // Combining the selections.

  function NotFullScan(ss: seq<Selection>): seq<Selection> {
    if ss == [] then []
    else NotFullScan(ss[..|ss| - 1]) + (if ss[|ss| - 1].source.FullScan? then [] else [ss[|ss| - 1]])
  }

  function Union(ss: seq<Selection>): set<ObjectId> {
    set x, id | x in ss && id in x.ids :: id
  }

  /** What all lists share; of no lists the empty set. */
  function Intersection(ss: seq<Selection>): set<ObjectId> {
    if ss == [] then {} else set id | id in ss[0].ids && forall x | x in ss :: id in x.ids
  }

  /**
   * A disjunction unites its property lists; otherwise, and whenever an advanced index applies, lists are intersected.
   */
  function Combined(mode: Mode, advanced: seq<Selection>, properties: seq<Selection>): set<ObjectId> {
    if advanced != [] then Intersection(advanced + NotFullScan(properties))
    else if mode.AnyOf? then Union(properties)
    else Intersection(properties)
  }

  method Combine(mode: Mode, advanced: seq<Selection>, properties: seq<Selection>) returns (allowed: set<ObjectId>)
    ensures allowed == Combined(mode, advanced, properties)
  {
    if mode.AnyOf? && advanced == [] {
      allowed := UnionCandidates(properties);
    } else {
      assert [] + properties == properties;
      allowed := IntersectCandidates(advanced + if advanced != [] then NotFullScan(properties) else properties);
    }
  }

  /** Which ids the indexes leave; `None` when no index applies. */
  function Allowed(s: Search, start: NodePattern): Option<set<ObjectId>> {
    if s.where.None? then None
    else
      var indexed := IndexableSetOf(s.cx, start.alias, s.where.value);
      var advanced := AdvancedSelections(s, start);
      if indexed.None? && advanced == [] then None
      else
        var properties := if indexed.Some? then SelectItems(s, start.typeName, indexed.value.items) else [];
        Some(Combined(if indexed.Some? then indexed.value.mode else AllOf, advanced, properties))
  }

  function TypeCandidates(ix: GraphIndex, typeName: Option<string>): seq<ObjectId> {
    if typeName.Some? then Bucket(ix.byType, typeName.value) else ix.order
  }

  function Restricted(ids: seq<ObjectId>, allowed: Option<set<ObjectId>>): seq<ObjectId> {
    if allowed.None? then ids
    else if ids == [] then []
    else
      var last := ids[|ids| - 1];
      Restricted(ids[..|ids| - 1], allowed) + (if last in allowed.value then [last] else [])
  }

  function CandidatesOf(s: Search, start: NodePattern): seq<ObjectId> {
    Restricted(TypeCandidates(s.ix, start.typeName), Allowed(s, start))
  }

  /** `candidates`; `None` is planning's error. */
  method Candidates(s: Search, start: NodePattern) returns (ids: Option<seq<ObjectId>>)
    ensures ids == if PlanningFails(s, start) then None else Some(CandidatesOf(s, start))
  {
    var typed := TypeCandidates(s.ix, start.typeName);
    var fails := CheckConstants(s, start);
    if fails {
      return None;
    }
    if s.where.None? {
      return Some(typed);
    }
    var indexed := IndexablePredicates(s.cx, start.alias, s.where.value);
    var advanced := FindAdvanced(s, start);
    if indexed.None? && advanced == [] {
      return Some(typed);
    }
    var properties := if indexed.Some? then SelectItems(s, start.typeName, indexed.value.items) else [];
    var allowed := Combine(if indexed.Some? then indexed.value.mode else AllOf, advanced, properties);
    var kept := FilterIds(typed, allowed);
    ids := Some(kept);
  }

  method FilterIds(ids: seq<ObjectId>, allowed: set<ObjectId>) returns (r: seq<ObjectId>)
    ensures r == Restricted(ids, Some(allowed))
  {
    r := [];
    for i := 0 to |ids|
      invariant r == Restricted(ids[..i], Some(allowed))
    {
      Chopped(ids, i);
      if ids[i] in allowed {
        r := r + [ids[i]];
      }
    }
    assert ids[..|ids|] == ids;
  }

  method UnionCandidates(ss: seq<Selection>) returns (r: set<ObjectId>)
    ensures forall id :: id in r <==> exists x | x in ss :: id in x.ids
  {
    r := {};
    for i := 0 to |ss|
      invariant forall id :: id in r <==> exists x | x in ss[..i] :: id in x.ids
    {
      assert ss[..i + 1] == ss[..i] + [ss[i]];
      r := r + ss[i].ids;
    }
    assert ss[..|ss|] == ss;
  }

  /** Starts from the first list, so that no lists give the empty set. */
  method IntersectCandidates(ss: seq<Selection>) returns (r: set<ObjectId>)
    ensures forall id :: id in r <==> ss != [] && forall x | x in ss :: id in x.ids
  {
    if ss == [] {
      return {};
    }
    r := ss[0].ids;
    for i := 1 to |ss|
      invariant forall id :: id in r <==> forall x | x in ss[..i] :: id in x.ids
    {
      assert ss[..i + 1] == ss[..i] + [ss[i]];
      r := r * ss[i].ids;
    }
    assert ss[..|ss|] == ss;
  }

  method FindAdvanced(s: Search, start: NodePattern) returns (r: seq<Selection>)
    requires s.where.Some?
    ensures r == AdvancedSelections(s, start)
  {
    var flat := Flatten(s.where.value, AllOf);
    if s.advanced.None? || flat.None? {
      return [];
    }
    var ax, ps := s.advanced.value, flat.value;
    var equalities := EqualityPredicates(s.cx, start.alias, ps);
    r := FindTuples(s.cx, ax, start.typeName, equalities);
    ghost var tuples := r;
    for i := 0 to |ps|
      invariant r == tuples + SelectPredicates(s.cx, ax, start, ps[..i])
    {
      Chopped(ps, i);
      var found := FindForPredicate(s.cx, ax, start, ps[i]);
      r := r + found;
    }
    assert ps[..|ps|] == ps;
  }

  method FindTuples(cx: Context, ax: AdvancedIndex, typeName: Option<string>, equalities: map<Path, JsValue>)
    returns (r: seq<Selection>)
    ensures r == SelectTuples(cx, ax, typeName, equalities, ax.definitions)
  {
    var ds := ax.definitions;
    r := [];
    for i := 0 to |ds|
      invariant r == SelectTuples(cx, ax, typeName, equalities, ds[..i])
    {
      Chopped(ds, i);
      var selected := SelectTuple(cx, ax, typeName, equalities, ds[i]);
      if selected.Some? {
        r := r + [selected.value];
      }
    }
    assert ds[..|ds|] == ds;
  }

  method FindForPredicate(cx: Context, ax: AdvancedIndex, start: NodePattern, p: Predicate) returns (r: seq<Selection>)
    ensures r == SelectDefinitions(cx, ax, start, p, ax.definitions)
  {
    var ds := ax.definitions;
    r := [];
    for i := 0 to |ds|
      invariant r == SelectDefinitions(cx, ax, start, p, ds[..i])
    {
      Chopped(ds, i);
      var selected := SelectPredicate(cx, ax, start, p, ds[i]);
      if selected.Some? {
        r := r + [selected.value];
      }
    }
    assert ds[..|ds|] == ds;
  }
}
