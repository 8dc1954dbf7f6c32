/** When one definition keeps all rows. */
module GvqlStatementLimits {
  // Statements with one pattern and one index definition: exactly when planning keeps the rows of every graph. The
  // conditions are on the definition, the pattern's type and the comparison, so they can be checked before the
  // statement runs.

  import opened EncodedGraph
  import opened GvqlValues
  import opened GvqlExpressions
  import opened GvqlIndex
  import opened GvqlIndexKeys
  import opened GvqlAdvancedIndex
  import opened GvqlMatcher
  import opened GvqlPlanner
  import opened GvqlSelectionSafety
  import opened GvqlPlanEquivalence
  import opened GvqlPlanLimits
  import opened GvqlBuiltIndexes
  import opened Folding

  // `MATCH (alias: type) WHERE where`.

  function OneClause(start: NodePattern): seq<Clause> {
    [Clause(Pattern(start, []), false)]
  }

  ghost predicate SearchOver(s: Search, e: Envelope, order: seq<ObjectId>, mode: PropertyMode,
                             definitions: seq<Definition>,
                             rt: Runtime, parameters: map<string, JsValue>, where: Condition) {
    && s.cx.runtime == rt && s.cx.parameters == parameters && s.where == Some(where)
    && BuiltFor(s, e, order, mode, definitions)
  }

  /** On every graph the planned run gives the rows of the unplanned one. */
  ghost predicate AlwaysSame(rt: Runtime, parameters: map<string, JsValue>, start: NodePattern, where: Condition,
                             mode: PropertyMode, definitions: seq<Definition>) {
    forall s: Search, e: Envelope, order: seq<ObjectId> | SearchOver(s, e, order, mode, definitions, rt, parameters,
        where) ::
      RunPlanned(s, OneClause(start)) == RunAll(s, OneClause(start))
  }

  ghost predicate Accepted(s: Search, start: NodePattern, id: ObjectId) {
    id in s.cx.nodes && MatchesType(s.cx.nodes, id, start.typeName) && Decided(s, One(start.alias, id)) == Some(true)
  }

  /** WHERE accepts the node, the indexes leave it out. */
  ghost predicate Missed(s: Search, start: NodePattern, id: ObjectId) {
    Accepted(s, start, id) && Allowed(s, start).Some? && id !in Allowed(s, start).value
  }

  lemma AllStarts(s: Search, start: NodePattern, b: Binding)
    requires SearchReady(s)
    ensures b in MatchAll(s, OneClause(start)) <==>
            exists id | id in s.cx.nodes && MatchesType(s.cx.nodes, id, start.typeName) :: b == One(start.alias, id)
  {
    var clause, typed := OneClause(start)[0], TypeCandidates(s.ix, start.typeName);
    SingleClause(s.ix, clause, TypedCandidates(s.ix));
    assert TypedCandidates(s.ix)(clause.pattern.start) == typed;
    StartsMember(s.ix, start, map[], typed, typed, b);
  }

  lemma SafeUnlessMissing(s: Search, start: NodePattern, id: ObjectId)
    requires SearchReady(s) && id in s.cx.nodes && MatchesType(s.cx.nodes, id, start.typeName)
    ensures Safe(OneClause(start), TypedCandidates(s.ix), AllowedBy(s), 1)(One(start.alias, id)) <==>
            (Allowed(s, start).Some? ==> id in Allowed(s, start).value)
  {
    var clauses, b, typed, allowed := OneClause(start), One(start.alias, id), TypedCandidates(s.ix), AllowedBy(s);
    assert Unfold(true);
    assert clauses[0].pattern.start == start && b[start.alias] == id && id in typed(start) &&
           allowed(start) == Allowed(s, start);
    assert LeftOut(clauses[0], typed(start), allowed(start), b) <==>
           allowed(start).Some? && id !in allowed(start).value;
    assert !StayedUnbound(clauses[0], allowed(start), b);
  }

  /** The two runs of one statement agree exactly when the indexes miss no node WHERE accepts. */
  lemma StatementExact(s: Search, start: NodePattern)
    requires Prepared(s) && !PlanningFails(s, start) && s.where.Some? && TotalCondition(s.where.value)
    ensures RunPlanned(s, OneClause(start)) == RunAll(s, OneClause(start)) <==> forall id :: !Missed(s, start, id)
  {
    assert Unfold(true);
    var clauses := OneClause(start);
    var all, planned := MatchAll(s, clauses), MatchPlanned(s, clauses);
    var safe, accepted := Safe(clauses, TypedCandidates(s.ix), AllowedBy(s), 1), AcceptedBy(s);
    PlannedRows(s, clauses);
    MatchedFilters(s, clauses);
    FilteredKeeps(s, all);
    FilteredKeeps(s, planned);
    forall b ensures Decided(s, b).Some? {
      TotalDecides(s.cx, b, s.where.value);
    }
    if id :| Missed(s, start, id) {
      var b := One(start.alias, id);
      AllStarts(s, start, b);
      SafeUnlessMissing(s, start, id);
      KeepMember(all, accepted, b);
      KeepMember(all, safe, b);
      KeepMember(planned, accepted, b);
    } else {
      forall b | b in all && accepted(b) ensures safe(b) {
        AllStarts(s, start, b);
        var id :| id in s.cx.nodes && MatchesType(s.cx.nodes, id, start.typeName) && b == One(start.alias, id);
        SafeUnlessMissing(s, start, id);
        assert !Missed(s, start, id);
      }
      KeepKeep(all, safe, accepted);
    }
  }

  /** What planning and matching rely on. */
  ghost predicate Prepared(s: Search) {
    forall u {:trigger Unfold(u)} | Unfold(u) :: SearchReady(s) && GraphOf(s.ix, s.cx.nodes)
  }

  lemma BuiltIsPrepared(s: Search, e: Envelope, order: seq<ObjectId>, mode: PropertyMode, definitions: seq<Definition>)
    requires HostLanguage(s.cx.runtime) && BuiltFor(s, e, order, mode, definitions)
    ensures Prepared(s)
  {
    BuiltIsReady(s, e, order, mode, definitions);
  }

  // One comparison with a constant.

  /** `alias.path op constant`, or `fn(alias.path) op constant`. */
  predicate Simple(alias: string, p: Predicate) {
    && p.right.Constant?
    && (|| (OnAlias(p.left, alias) && PlainPath(p.left.path.value))
        || (&& p.left.Call? && !p.left.fn.Coalesce? && |p.left.args| == 1
            && OnAlias(p.left.args[0], alias) && PlainPath(p.left.args[0].path.value)))
  }

  function SubjectPath(alias: string, p: Predicate): Path
    requires Simple(alias, p)
  {
    if p.left.Call? then p.left.args[0].path.value else p.left.path.value
  }

  function ConstantIn(parameters: map<string, JsValue>, p: Predicate): JsValue
    requires p.right.Constant?
  {
    LiteralToJs(parameters, p.right.literal)
  }

  /** The host without a graph: comparing two values needs no more. */
  function Bare(rt: Runtime, parameters: map<string, JsValue>): Context {
    Context(map[], map[], parameters, rt)
  }

  /** The comparison holds of a node whose property reads as this value. */
  predicate Passes(rt: Runtime, parameters: map<string, JsValue>, p: Predicate, read: JsValue)
    requires p.right.Constant?
  {
    var cx := Bare(rt, parameters);
    Holds(cx, if p.left.Call? then Scalar(cx, p.left.fn, read) else read, p.operator, ConstantIn(parameters, p))
  }

  lemma SimpleDecides(s: Search, start: NodePattern, p: Predicate, id: ObjectId)
    requires s.where == Some(Test(p)) && Simple(start.alias, p) && id in s.cx.nodes
    ensures Decided(s, One(start.alias, id)) ==
            Some(Passes(s.cx.runtime, s.cx.parameters, p, ReadValue(s.cx.nodes[id], SubjectPath(start.alias, p))))
  {
    var b, path := One(start.alias, id), SubjectPath(start.alias, p);
    var read, v := ReadValue(s.cx.nodes[id], path), ConstantIn(s.cx.parameters, p);
    assert ReadPath(s.cx, b, start.alias, Some(path)) == read;
    if p.left.Call? {
      ComputedReads(s.cx, b, p.left);
      assert Scalar(s.cx, p.left.fn, read) == Scalar(Bare(s.cx.runtime, s.cx.parameters), p.left.fn, read);
    }
    var left := if p.left.Call? then Scalar(s.cx, p.left.fn, read) else read;
    assert Evaluate(s.cx, b, p.left) == Some(left) && Evaluate(s.cx, b, p.right) == Some(v);
    assert Holds(s.cx, left, p.operator, v) == Holds(Bare(s.cx.runtime, s.cx.parameters), left, p.operator, v);
    assert Decide(s.cx, b, Test(p)) == DecidePredicate(s.cx, b, p);
  }

  // What a definition offers for the comparison, and which values it lists.

  function Needle(rt: Runtime, parameters: map<string, JsValue>, p: Predicate, d: Definition): string
    requires p.right.Constant?
  {
    rt.normalize(TextOf(rt, ConstantIn(parameters, p)), d.text.caseSensitive)
  }

  predicate Offers(rt: Runtime, parameters: map<string, JsValue>, start: NodePattern, p: Predicate, d: Definition)
    requires p.right.Constant?
  {
    && TypeFits(d, start.typeName)
    && if d.kind.Computed? then p.operator.Equal? && IsComputed(p.left, start.alias, d)
       else
         && OnAlias(p.left, start.alias) && d.paths == [p.left.path.value]
         && match d.kind
            case Range => IsRangeOperator(p.operator)
            case TextTerms => IsTextOperator(p.operator) &&
                        LookupTerms(p.operator, Needle(rt, parameters, p, d), d.text) != []
            case FullText => p.operator.Contains? && rt.tokens(Needle(rt, parameters, p, d)) != {}
            case _ => false
  }

  /** What the definition computes from the value read. */
  function DefinedFrom(rt: Runtime, d: Definition, read: JsValue): JsValue {
    if !d.kind.Computed? || IsNullish(read) then read
    else match d.fn
      case Length => if read.JsArray? then JsNumber(|read.items| as real) else JsNumber(|rt.text(read)| as real)
      case Lower => JsString(rt.localeLower(rt.text(read)))
      case Upper => JsString(rt.localeUpper(rt.text(read)))
      case _ => JsString(rt.trim(rt.text(read)))
  }

  /** The definition lists the value where the comparison looks. */
  ghost predicate ValueListed(rt: Runtime, parameters: map<string, JsValue>, p: Predicate, d: Definition, read: JsValue)
    requires p.right.Constant?
  {
    var v, first := ConstantIn(parameters, p), DefinedFrom(rt, d, read);
    && (d.sparse ==> !IsNullish(first))
    && match d.kind
       case Computed => StableKey(rt, first) == StableKey(rt, v)
       case Range => !IsNullish(first) && Holds(Bare(rt, parameters), first, p.operator, v)
       case TextTerms =>
         forall term | term in LookupTerms(p.operator, Needle(rt, parameters, p, d), d.text) ::
           IsIndexTerm(rt, rt.normalize(TextOf(rt, first), d.text.caseSensitive), d.text, term)
       case FullText =>
         rt.tokens(Needle(rt, parameters, p, d)) <= rt.tokens(rt.normalize(TextOf(rt, first), d.text.caseSensitive))
       case _ => false
  }

  /** The definition covers the node: its type and its partial condition. */
  predicate Covers(d: Definition, node: EncodedNode) {
    && node.ObjectNode?
    && (d.typeName.None? || node.typeName == d.typeName)
    && (d.partial.None? || MatchesPartial(node, d.partial.value))
  }

  ghost predicate NodeListed(rt: Runtime, parameters: map<string, JsValue>, start: NodePattern, p: Predicate,
                             d: Definition,
                             node: EncodedNode)
    requires Simple(start.alias, p)
  {
    Covers(d, node) && ValueListed(rt, parameters, p, d, ReadValue(node, SubjectPath(start.alias, p)))
  }

  lemma OffersSelects(s: Search, start: NodePattern, p: Predicate, d: Definition)
    requires Simple(start.alias, p) && s.advanced.Some?
    ensures ConstantOf(s.cx, p) == Some(ConstantIn(s.cx.parameters, p))
    ensures SelectPredicate(s.cx, s.advanced.value, start, p, d).Some? <==>
            Offers(s.cx.runtime, s.cx.parameters, start, p, d)
  {
  }

  lemma InBucket(s: Search, d: Definition, key: string, id: ObjectId)
    requires SearchReady(s) && s.advanced.Some? && s.advanced.value.definitions == [d]
    ensures id in Ids(s.advanced.value, Slot(d.kind, d.name, key)) <==>
            id in s.cx.nodes && ListsUnder(s.cx.runtime, d, s.cx.nodes[id], key)
  {
    var at := Slot(d.kind, d.name, key);
    assert NamedAlone(s.advanced.value, d);
    if id in Ids(s.advanced.value, at) {
      BucketOfDefinition(s, d, at, id);
    }
    if id in s.cx.nodes && ListsUnder(s.cx.runtime, d, s.cx.nodes[id], key) {
      ListedInBucket(s, d, id, key);
    }
  }

  lemma ListsWhat(rt: Runtime, parameters: map<string, JsValue>, start: NodePattern, p: Predicate, d: Definition,
                  node: EncodedNode)
    requires Simple(start.alias, p) && Offers(rt, parameters, start, p, d)
    ensures var first := DefinedFrom(rt, d, ReadValue(node, SubjectPath(start.alias, p)));
            && DefinedValues(rt, node, d) == [first]
            && (Lists(rt, d, node) <==> Covers(d, node) && (d.sparse ==> !IsNullish(first)))
  {
    var first := DefinedFrom(rt, d, ReadValue(node, SubjectPath(start.alias, p)));
    assert DefinedValues(rt, node, d) == [first];
  }

  lemma TermLookupLists(s: Search, d: Definition, terms: set<string>, id: ObjectId)
    requires SearchReady(s) && s.advanced.Some? && s.advanced.value.definitions == [d] && terms != {}
    ensures id in TermLookup(s.advanced.value, d.kind, d.name, terms) <==>
            id in s.cx.nodes && forall term | term in terms :: ListsUnder(s.cx.runtime, d, s.cx.nodes[id], term)
  {
    var first :| first in terms;
    forall term ensures id in Ids(s.advanced.value, Slot(d.kind, d.name, term)) <==>
                        id in s.cx.nodes && ListsUnder(s.cx.runtime, d, s.cx.nodes[id], term)
    {
      InBucket(s, d, term, id);
    }
  }

  /** The selection is exactly the nodes the definition lists. */
  lemma SelectionLists(s: Search, start: NodePattern, p: Predicate, d: Definition, id: ObjectId)
    requires SearchReady(s) && s.advanced.Some? && s.advanced.value.definitions == [d] && Simple(start.alias, p)
    requires SelectPredicate(s.cx, s.advanced.value, start, p, d).Some?
    ensures id in SelectPredicate(s.cx, s.advanced.value, start, p, d).value.ids <==>
            id in s.cx.nodes && NodeListed(s.cx.runtime, s.cx.parameters, start, p, d, s.cx.nodes[id])
  {
    OffersSelects(s, start, p, d);
    match d.kind
    case Computed => ComputedSelectionLists(s, start, p, d, id);
    case Range =>
      if ListedIn(s, start, p, d, id) {
        RangeListedIsFound(s, start, p, d, id);
      } else if id in RangeLookup(s.cx, s.advanced.value, d.name, p.operator, ConstantIn(s.cx.parameters, p)) {
        RangeFoundIsListed(s, start, p, d, id);
      }
    case TextTerms => TextSelectionLists(s, start, p, d, id);
    case FullText => WordSelectionLists(s, start, p, d, id);
  }

  ghost predicate OfferedIn(s: Search, start: NodePattern, p: Predicate, d: Definition) {
    && SearchReady(s) && s.advanced.Some? && s.advanced.value.definitions == [d] && Simple(start.alias, p)
    && Offers(s.cx.runtime, s.cx.parameters, start, p, d)
  }

  ghost predicate ListedIn(s: Search, start: NodePattern, p: Predicate, d: Definition, id: ObjectId)
    requires Simple(start.alias, p)
  {
    id in s.cx.nodes && NodeListed(s.cx.runtime, s.cx.parameters, start, p, d, s.cx.nodes[id])
  }

  lemma ComputedSelectionLists(s: Search, start: NodePattern, p: Predicate, d: Definition, id: ObjectId)
    requires OfferedIn(s, start, p, d) && d.kind.Computed?
    ensures id in Ids(s.advanced.value, Slot(Computed, d.name,
                                             StableKey(s.cx.runtime, ConstantIn(s.cx.parameters, p)))) <==>
            ListedIn(s, start, p, d, id)
  {
    InBucket(s, d, StableKey(s.cx.runtime, ConstantIn(s.cx.parameters, p)), id);
    if id in s.cx.nodes {
      ListsWhat(s.cx.runtime, s.cx.parameters, start, p, d, s.cx.nodes[id]);
    }
  }

  lemma TextSelectionLists(s: Search, start: NodePattern, p: Predicate, d: Definition, id: ObjectId)
    requires OfferedIn(s, start, p, d) && d.kind.TextTerms?
    ensures var terms := TermSet(LookupTerms(p.operator, Needle(s.cx.runtime, s.cx.parameters, p, d), d.text));
            id in TermLookup(s.advanced.value, TextTerms, d.name, terms) <==> ListedIn(s, start, p, d, id)
  {
    var terms := LookupTerms(p.operator, Needle(s.cx.runtime, s.cx.parameters, p, d), d.text);
    assert terms[0] in TermSet(terms);
    TermLookupLists(s, d, TermSet(terms), id);
    if id in s.cx.nodes {
      TermsAreListed(s.cx.runtime, s.cx.parameters, start, p, d, s.cx.nodes[id], terms);
    }
  }

  lemma TermsAreListed(rt: Runtime, parameters: map<string, JsValue>, start: NodePattern, p: Predicate, d: Definition,
                       node: EncodedNode, terms: seq<string>)
    requires Simple(start.alias, p) && Offers(rt, parameters, start, p, d) && d.kind.TextTerms? && terms != []
    requires terms == LookupTerms(p.operator, Needle(rt, parameters, p, d), d.text)
    ensures (forall term | term in TermSet(terms) :: ListsUnder(rt, d, node, term)) <==>
            NodeListed(rt, parameters, start, p, d, node)
  {
    ListsWhat(rt, parameters, start, p, d, node);
    var first := DefinedFrom(rt, d, ReadValue(node, SubjectPath(start.alias, p)));
    var text := rt.normalize(TextOf(rt, first), d.text.caseSensitive);
    forall term ensures ListsUnder(rt, d, node, term) <==> Lists(rt, d, node) && IsIndexTerm(rt, text, d.text, term) {
    }
    assert terms[0] in TermSet(terms);
  }

  lemma WordSelectionLists(s: Search, start: NodePattern, p: Predicate, d: Definition, id: ObjectId)
    requires OfferedIn(s, start, p, d) && d.kind.FullText?
    ensures id in TermLookup(s.advanced.value, FullText, d.name,
                             s.cx.runtime.tokens(Needle(s.cx.runtime, s.cx.parameters, p, d))) <==>
            ListedIn(s, start, p, d, id)
  {
    TermLookupLists(s, d, s.cx.runtime.tokens(Needle(s.cx.runtime, s.cx.parameters, p, d)), id);
    if id in s.cx.nodes {
      ListsWhat(s.cx.runtime, s.cx.parameters, start, p, d, s.cx.nodes[id]);
    }
  }

  lemma RangeFoundIsListed(s: Search, start: NodePattern, p: Predicate, d: Definition, id: ObjectId)
    requires OfferedIn(s, start, p, d) && d.kind.Range?
    requires id in RangeLookup(s.cx, s.advanced.value, d.name, p.operator, ConstantIn(s.cx.parameters, p))
    ensures ListedIn(s, start, p, d, id)
  {
    FoundInRange(s, d, p.operator, ConstantIn(s.cx.parameters, p), id);
    ListsWhat(s.cx.runtime, s.cx.parameters, start, p, d, s.cx.nodes[id]);
  }

  lemma FoundInRange(s: Search, d: Definition, operator: Operator, v: JsValue, id: ObjectId)
    requires SearchReady(s) && s.advanced.Some? && s.advanced.value.definitions == [d]
    requires d.kind.Range? && |d.paths| == 1 && IsRangeOperator(operator)
    requires id in RangeLookup(s.cx, s.advanced.value, d.name, operator, v)
    ensures id in s.cx.nodes && Lists(s.cx.runtime, d, s.cx.nodes[id])
    ensures var read := ReadValue(s.cx.nodes[id], d.paths[0]);
            !IsNullish(read) && Holds(Bare(s.cx.runtime, s.cx.parameters), read, operator, v)
  {
    var ax := s.advanced.value;
    var at: Slot :| at in ax.buckets && at.kind.Range? && at.name == d.name && at in ax.raw &&
                    Holds(s.cx, ax.raw[at], operator, v) && id in ax.buckets[at];
    assert at == Slot(d.kind, d.name, at.key) && id in Ids(ax, at);
    InBucket(s, d, at.key, id);
    RangeKeyIs(s.cx.runtime, d, s.cx.nodes[id], at.key);
    RawComparesAlike(s, at, ReadValue(s.cx.nodes[id], d.paths[0]), operator, v);
  }

  lemma RangeKeyIs(rt: Runtime, d: Definition, node: EncodedNode, key: string)
    requires d.kind.Range? && |d.paths| == 1 && ListsUnder(rt, d, node, key)
    ensures var read := ReadValue(node, d.paths[0]);
              Lists(rt, d, node) && !IsNullish(read) && key == StableKey(rt, read)
    ensures var read := ReadValue(node, d.paths[0]); !read.JsArray? && !read.JsSummary?
  {
    assert DefinedValues(rt, node, d)[0] == ReadValue(node, d.paths[0]);
  }

  /** The value a range bucket was opened with stands in the relations of every value listed there. */
  lemma RawComparesAlike(s: Search, at: Slot, read: JsValue, operator: Operator, v: JsValue)
    requires s.advanced.Some? && RawFits(s.advanced.value, s.cx.runtime) && HostLanguage(s.cx.runtime)
    requires at.kind.Range? && Ids(s.advanced.value, at) != {} && at.key == StableKey(s.cx.runtime, read)
    requires IsRangeOperator(operator) && !read.JsArray? && !read.JsSummary?
    ensures at in s.advanced.value.raw
    ensures Holds(s.cx, s.advanced.value.raw[at], operator, v) ==
            Holds(Bare(s.cx.runtime, s.cx.parameters), read, operator, v)
  {
    SharedKeyComparesAlike(s.cx, s.advanced.value.raw[at], read, v);
  }

  lemma RangeListedIsFound(s: Search, start: NodePattern, p: Predicate, d: Definition, id: ObjectId)
    requires OfferedIn(s, start, p, d) && d.kind.Range? && ListedIn(s, start, p, d, id)
    ensures id in RangeLookup(s.cx, s.advanced.value, d.name, p.operator, ConstantIn(s.cx.parameters, p))
  {
    ListsWhat(s.cx.runtime, s.cx.parameters, start, p, d, s.cx.nodes[id]);
    RangeListed(s, d, id, p.left.path.value, p.operator, ConstantIn(s.cx.parameters, p));
  }

  /** The comparison is no equality or membership on a path, which property buckets and unique keys would serve too. */
  predicate OnlyAdvanced(alias: string, p: Predicate, d: Definition) {
    && Simple(alias, p) && (p.left.Call? || !(p.operator.Equal? || p.operator.In?))
    && !d.kind.UniqueKey? && !d.kind.Composite?
  }

  lemma OneSelection(s: Search, start: NodePattern, p: Predicate, d: Definition)
    requires OnlyAdvanced(start.alias, p, d) && s.where == Some(Test(p))
    requires s.advanced.Some? && s.advanced.value.definitions == [d]
    ensures var selected := SelectPredicate(s.cx, s.advanced.value, start, p, d);
            Allowed(s, start) == if selected.Some? then Some(selected.value.ids) else None
    ensures !PlanningFails(s, start)
  {
    var ax, ps := s.advanced.value, [p];
    var selected := SelectPredicate(s.cx, ax, start, p, d);
    assert Flatten(s.where.value, AllOf) == Some(ps) && ps[..0] == [];
    assert IndexableItems(s.cx, start.alias, ps) == [];
    var equalities := Equalities(s.cx, start.alias, ps);
    assert ax.definitions[..0] == [];
    assert SelectTuples(s.cx, ax, start.typeName, equalities, [d]) == [];
    var found := if selected.Some? then [selected.value] else [];
    assert SelectDefinitions(s.cx, ax, start, p, [d]) == [] + found == found;
    assert SelectPredicates(s.cx, ax, start, ps) == [] + found == found;
    assert AdvancedSelections(s, start) == [] + found == found;
    if selected.Some? {
      assert found + NotFullScan([]) == found;
      assert Intersection(found) == selected.value.ids;
    }
    assert Unfold(true);
    assert !ConstantFails(s.cx, start.alias, p);
  }

  predicate TypeIs(node: EncodedNode, typeName: Option<string>) {
    typeName.None? || TypeOf(node) == typeName
  }

  /**
   * A node the comparison accepts is missed exactly when the definition offers a selection and does not list the node.
   */
  lemma MissedIff(s: Search, start: NodePattern, p: Predicate, d: Definition, id: ObjectId)
    requires Prepared(s) && OnlyAdvanced(start.alias, p, d) && s.where == Some(Test(p))
    requires s.advanced.Some? && s.advanced.value.definitions == [d]
    ensures Missed(s, start, id) <==>
            && id in s.cx.nodes && TypeIs(s.cx.nodes[id], start.typeName)
            && Passes(s.cx.runtime, s.cx.parameters, p, ReadValue(s.cx.nodes[id], SubjectPath(start.alias, p)))
            && Offers(s.cx.runtime, s.cx.parameters, start, p, d)
            && !NodeListed(s.cx.runtime, s.cx.parameters, start, p, d, s.cx.nodes[id])
  {
    assert Unfold(true);
    OneSelection(s, start, p, d);
    OffersSelects(s, start, p, d);
    if id in s.cx.nodes {
      SimpleDecides(s, start, p, id);
      if Offers(s.cx.runtime, s.cx.parameters, start, p, d) {
        SelectionLists(s, start, p, d, id);
      }
    }
  }

  const NOTHING_CONFIGURED := Configured({})

  ghost predicate NodeLost(rt: Runtime, parameters: map<string, JsValue>, start: NodePattern, p: Predicate,
                           d: Definition,
                           node: EncodedNode)
    requires Simple(start.alias, p)
  {
    && TypeIs(node, start.typeName) && Passes(rt, parameters, p, ReadValue(node, SubjectPath(start.alias, p)))
    && !NodeListed(rt, parameters, start, p, d, node)
  }

  /** The graph with this node alone, and its indexes. */
  ghost function OneNodeSearch(rt: Runtime, parameters: map<string, JsValue>, where: Condition, mode: PropertyMode,
                               definitions: seq<Definition>, node: EncodedNode): (s: Search)
    ensures s.cx == Context(map[0 := node], map[0 := node], parameters, rt)
    ensures BuiltFor(s, Envelope(Null, map[0 := node]), [0], mode, definitions)
    ensures SearchOver(s, Envelope(Null, map[0 := node]), [0], mode, definitions, rt, parameters, where)
  {
    OneNodeNoConflict(rt, node, definitions);
    SearchOf(Envelope(Null, map[0 := node]), [0], mode, definitions, rt, parameters, where)
  }

  lemma LostNodeDiffers(s: Search, start: NodePattern, p: Predicate, d: Definition, id: ObjectId)
    requires Prepared(s) && OnlyAdvanced(start.alias, p, d) && s.where == Some(Test(p)) && id in s.cx.nodes
    requires s.advanced.Some? && s.advanced.value.definitions == [d]
    requires Offers(s.cx.runtime, s.cx.parameters, start, p, d)
    requires NodeLost(s.cx.runtime, s.cx.parameters, start, p, d, s.cx.nodes[id])
    ensures RunPlanned(s, OneClause(start)) != RunAll(s, OneClause(start))
  {
    OneSelection(s, start, p, d);
    MissedIff(s, start, p, d, id);
    StatementExact(s, start);
  }

  lemma NoLostNodeSame(s: Search, start: NodePattern, p: Predicate, d: Definition)
    requires Prepared(s) && OnlyAdvanced(start.alias, p, d) && s.where == Some(Test(p))
    requires s.advanced.Some? && s.advanced.value.definitions == [d]
    requires Offers(s.cx.runtime, s.cx.parameters, start, p, d) ==>
               forall node :: !NodeLost(s.cx.runtime, s.cx.parameters, start, p, d, node)
    ensures RunPlanned(s, OneClause(start)) == RunAll(s, OneClause(start))
  {
    OneSelection(s, start, p, d);
    forall id ensures !Missed(s, start, id) {
      MissedIff(s, start, p, d, id);
      if Missed(s, start, id) {
        assert NodeLost(s.cx.runtime, s.cx.parameters, start, p, d, s.cx.nodes[id]);
      }
    }
    StatementExact(s, start);
  }

  lemma LostNodeShows(rt: Runtime, parameters: map<string, JsValue>, start: NodePattern, p: Predicate, d: Definition,
                      node: EncodedNode)
    requires HostLanguage(rt) && OnlyAdvanced(start.alias, p, d)
    requires Offers(rt, parameters, start, p, d) && NodeLost(rt, parameters, start, p, d, node)
    ensures !AlwaysSame(rt, parameters, start, Test(p), NOTHING_CONFIGURED, [d])
  {
    var s := OneNodeSearch(rt, parameters, Test(p), NOTHING_CONFIGURED, [d], node);
    BuiltIsPrepared(s, Envelope(Null, map[0 := node]), [0], NOTHING_CONFIGURED, [d]);
    LostNodeDiffers(s, start, p, d, 0);
  }

  /** Planning keeps the rows of every graph exactly when the definition loses no node. */
  lemma AlwaysSameIff(rt: Runtime, parameters: map<string, JsValue>, start: NodePattern, p: Predicate, d: Definition)
    requires HostLanguage(rt) && OnlyAdvanced(start.alias, p, d)
    ensures AlwaysSame(rt, parameters, start, Test(p), NOTHING_CONFIGURED, [d]) <==>
            (Offers(rt, parameters, start, p, d) ==> forall node :: !NodeLost(rt, parameters, start, p, d, node))
  {
    if Offers(rt, parameters, start, p, d) && exists node :: NodeLost(rt, parameters, start, p, d, node) {
      var node :| NodeLost(rt, parameters, start, p, d, node);
      LostNodeShows(rt, parameters, start, p, d, node);
    } else {
      forall s: Search, e: Envelope, order: seq<ObjectId>
        | SearchOver(s, e, order, NOTHING_CONFIGURED, [d], rt, parameters, Test(p))
        ensures RunPlanned(s, OneClause(start)) == RunAll(s, OneClause(start))
      {
        BuiltIsPrepared(s, e, order, NOTHING_CONFIGURED, [d]);
        NoLostNodeSame(s, start, p, d);
      }
    }
  }
}
