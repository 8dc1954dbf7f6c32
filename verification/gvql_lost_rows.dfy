/** One concrete graph and statement for each way in which an index loses a row that WHERE would accept. */
module GvqlLostRows {
  import opened EncodedGraph
  import opened GvqlValues
  import opened GvqlExpressions
  import opened GvqlIndex
  import opened GvqlIndexKeys
  import opened GvqlAdvancedIndex
  import opened GvqlMatcher
  import opened GvqlPlanner
  import opened GvqlSelectionSafety
  import opened GvqlPlanEquivalence
  import opened GvqlPlanLimits
  import opened GvqlBuiltIndexes
  import opened GvqlStatementLimits
  import opened GvqlExactTuples
  import opened GvqlExactProperties
  import opened Folding

  /** The planned run finds nothing, the unplanned one finds this node. */
  ghost predicate RowLost(s: Search, start: NodePattern, id: ObjectId) {
    && RunPlanned(s, OneClause(start)) == Some([])
    && RunAll(s, OneClause(start)).Some? && One(start.alias, id) in RunAll(s, OneClause(start)).value
  }

  /** If the indexes miss the only node WHERE accepts, its row is lost. */
  lemma MissedIsLost(s: Search, start: NodePattern, id: ObjectId)
    requires Prepared(s) && !PlanningFails(s, start) && s.where.Some? && TotalCondition(s.where.value)
    requires Missed(s, start, id) && forall x | x in s.cx.nodes :: x == id
    ensures RowLost(s, start, id)
  {
    assert Unfold(true);
    var clauses := OneClause(start);
    var all, planned := MatchAll(s, clauses), MatchPlanned(s, clauses);
    var safe, accepted := Safe(clauses, TypedCandidates(s.ix), AllowedBy(s), 1), AcceptedBy(s);
    PlannedRows(s, clauses);
    MatchedFilters(s, clauses);
    FilteredKeeps(s, all);
    FilteredKeeps(s, planned);
    forall b ensures Decided(s, b).Some? {
      TotalDecides(s.cx, b, s.where.value);
    }
    AllStarts(s, start, One(start.alias, id));
    SafeUnlessMissing(s, start, id);
    KeepMember(all, accepted, One(start.alias, id));
    forall b | b in all ensures !safe(b) {
      AllStarts(s, start, b);
    }
    KeepNone(all, safe);
  }

  /** The sample search over one node and one definition. */
  ghost function Sample(where: Condition, d: Definition, node: EncodedNode): Search {
    OneNodeSearch(SampleRuntime(), map[], where, NOTHING_CONFIGURED, [d], node)
  }

  lemma SampleIsPrepared(where: Condition, d: Definition, node: EncodedNode)
    ensures var s := Sample(where, d, node);
            Prepared(s) && s.where == Some(where) && s.advanced.Some? && s.advanced.value.definitions == [d]
  {
    HostLanguageIsMet();
    BuiltIsPrepared(Sample(where, d, node), Envelope(Null, map[0 := node]), [0], NOTHING_CONFIGURED, [d]);
  }

  lemma LostIn(s: Search, start: NodePattern, p: Predicate, d: Definition, id: ObjectId)
    requires Prepared(s) && OnlyAdvanced(start.alias, p, d) && s.where == Some(Test(p))
    requires s.advanced.Some? && s.advanced.value.definitions == [d] &&
             Offers(s.cx.runtime, s.cx.parameters, start, p, d)
    requires id in s.cx.nodes && NodeLost(s.cx.runtime, s.cx.parameters, start, p, d, s.cx.nodes[id])
    requires forall x | x in s.cx.nodes :: x == id
    ensures RowLost(s, start, id)
  {
    OneSelection(s, start, p, d);
    MissedIff(s, start, p, d, id);
    MissedIsLost(s, start, id);
  }

  lemma LostNodeIsLost(start: NodePattern, p: Predicate, d: Definition, node: EncodedNode)
    requires OnlyAdvanced(start.alias, p, d) && Offers(SampleRuntime(), map[], start, p, d)
    requires NodeLost(SampleRuntime(), map[], start, p, d, node)
    ensures RowLost(Sample(Test(p), d, node), start, 0)
  {
    SampleIsPrepared(Test(p), d, node);
    LostIn(Sample(Test(p), d, node), start, p, d, 0);
  }

  function Named(text: string): Path {
    Path(text, Name)
  }

  /** `n.path operator constant`. */
  function Comparison(path: string, operator: Operator, v: JsValue): Predicate {
    Predicate(PathOf("n", Some(Named(path))), operator, Constant(Value(v)))
  }

  function Define(kind: Kind, typeName: Option<string>, path: string): Definition {
    Definition(kind, "index", typeName, [Named(path)], Lower, false, None, false, TextOptions(false, 2, 4))
  }

  function Person(props: seq<Property>): EncodedNode {
    ObjectNode(Some("Person"), props)
  }

  const PERSONS := NodePattern("n", Some("Person"))
  const NODES := NodePattern("n", None)

  lemma PathIsPlain(path: string)
    requires path != "" && path[0] != '$'
    ensures PlainPath(Named(path))
  {
    assert ID_PATH[0] == '$' && KIND_PATH[0] == '$' && TYPE_PATH[0] == '$';
  }

  /** `MATCH (n: Person) WHERE n.age < 5`, a range index on age, a person without age. */
  lemma MissingValueLosesRow()
    ensures RowLost(Sample(Test(Comparison("age", Less, JsNumber(5.0))), Define(Range, None, "age"), Person([])),
                    PERSONS, 0)
  {
    PathIsPlain("age");
    LostNodeIsLost(PERSONS, Comparison("age", Less, JsNumber(5.0)), Define(Range, None, "age"), Person([]));
  }

  /** `MATCH (n) WHERE n.name >= "x"`, a range index for persons, a node of no type. */
  lemma TypedDefinitionLosesRow()
    ensures RowLost(Sample(Test(Comparison("name", GreaterEqual, JsString("x"))), Define(Range, Some("Person"), "name"),
                           ObjectNode(None, [Property("name", Text("x"))])), NODES, 0)
  {
    PathIsPlain("name");
    LostNodeIsLost(NODES, Comparison("name", GreaterEqual, JsString("x")), Define(Range, Some("Person"), "name"),
                   ObjectNode(None, [Property("name", Text("x"))]));
  }

  /** `MATCH (n: Person) WHERE n.name >= "x"`, a range index of active persons only, a person that is not. */
  lemma PartialDefinitionLosesRow()
    ensures RowLost(Sample(Test(Comparison("name", GreaterEqual, JsString("x"))), ActiveOnly(),
                           Person([Property("name", Text("x"))])), PERSONS, 0)
  {
    PathIsPlain("name");
    var props := [Property("name", Text("x"))];
    assert props[1..] == [];
    LostNodeIsLost(PERSONS, Comparison("name", GreaterEqual, JsString("x")), ActiveOnly(), Person(props));
  }

  function ActiveOnly(): Definition {
    Define(Range, None, "name").(partial := Some(PartialCondition(Named("active"), IsNotNull, JsNull, [])))
  }

  function Repeated(n: nat): string {
    seq(n, i => 'a')
  }

  /** A needle of 65 letters that the value starts with. */
  lemma LongNeedleLosesRow()
    ensures RowLost(Sample(Test(Comparison("name", StartsWith, JsString(Repeated(65)))),
                           Define(TextTerms, None, "name"),
                           Person([Property("name", Text(Repeated(65)))])), PERSONS, 0)
  {
    PathIsPlain("name");
    var rt, p, d := SampleRuntime(), Comparison("name", StartsWith, JsString(Repeated(65))),
        Define(TextTerms, None, "name");
    var needle := Repeated(65);
    assert |DECOMPOSED| == 6 && rt.normalize(needle, false) == needle && Needle(rt, map[], p, d) == needle;
    var node := Person([Property("name", Text(needle))]);
    assert ReadValue(node, Named("name")) == JsString(needle);
    TermsListedIff(rt, StartsWith, needle, needle, d.text);
    LostNodeIsLost(PERSONS, p, d, node);
  }

  /** `MATCH (n: Person) WHERE n.name STARTS WITH "e"` and a name in decomposed form. */
  lemma CompositionLosesRow()
    ensures RowLost(Sample(Test(Comparison("name", StartsWith, JsString("e"))), Define(TextTerms, None, "name"),
                           Person([Property("name", Text(DECOMPOSED))])), PERSONS, 0)
  {
    PathIsPlain("name");
    var rt, p, d := SampleRuntime(), Comparison("name", StartsWith, JsString("e")), Define(TextTerms, None, "name");
    CompositionLosesPrefix(d.text);
    assert Needle(rt, map[], p, d) == "e";
    var node := Person([Property("name", Text(DECOMPOSED))]);
    assert ReadValue(node, Named("name")) == JsString(DECOMPOSED);
    LostNodeIsLost(PERSONS, p, d, node);
  }

  /** `MATCH (n: Person) WHERE n.name CONTAINS "cat"`, whole words indexed, a name that has it inside a word. */
  lemma InsideWordLosesRow()
    ensures RowLost(Sample(Test(Comparison("name", Contains, JsString("cat"))), Define(FullText, None, "name"),
                           Person([Property("name", Text("concatenate"))])), PERSONS, 0)
  {
    PathIsPlain("name");
    var rt, p, d := SampleRuntime(), Comparison("name", Contains, JsString("cat")), Define(FullText, None, "name");
    assert |DECOMPOSED| == 6;
    assert Needle(rt, map[], p, d) == "cat" && rt.tokens("cat") == {"cat"};
    var node := Person([Property("name", Text("concatenate"))]);
    assert ReadValue(node, Named("name")) == JsString("concatenate");
    assert OccursAt("concatenate", "cat", 3);
    assert "cat" !in rt.tokens(rt.normalize("concatenate", false));
    LostNodeIsLost(PERSONS, p, d, node);
  }

  /** `MATCH (n: Person) WHERE lower(n.name) = null` and a person without name. */
  lemma NullExpressionLosesRow()
    ensures RowLost(Sample(Test(LowerIsNull()), Define(Computed, None, "name"), Person([])), PERSONS, 0)
  {
    PathIsPlain("name");
    LostNodeIsLost(PERSONS, LowerIsNull(), Define(Computed, None, "name"), Person([]));
  }

  function LowerIsNull(): Predicate {
    Predicate(Call(Lower, [PathOf("n", Some(Named("name")))]), Equal, Constant(Value(JsNull)))
  }

  /** `MATCH (n: Person) WHERE n.email = null`, a sparse unique index, a person whose email is null. */
  lemma SparseNullLosesRow()
    ensures RowLost(Sample(Test(Comparison("email", Equal, JsNull)), SparseEmail(), Person([Property("email", Null)])),
                    PERSONS, 0)
  {
    var p, node := Comparison("email", Equal, JsNull), Person([Property("email", Null)]);
    SampleIsPrepared(Test(p), SparseEmail(), node);
    var s := Sample(Test(p), SparseEmail(), node);
    SparseSearch(s, p);
    SparseNode(SampleRuntime(), node);
    LostTuple(s, PERSONS, SparseEmail(), [JsNull], 0);
  }

  lemma SparseSearch(s: Search, p: Predicate)
    requires p == Comparison("email", Equal, JsNull) && s.where == Some(Test(p))
    ensures Equated(s, PERSONS, [Named("email")], [JsNull])
  {
    PathIsPlain("email");
    assert GivenAt("n", s.cx.parameters, [Named("email")], [JsNull], p, 0);
    assert SomeGives("n", s.cx.parameters, [Named("email")], [JsNull], [p], 0);
  }

  lemma SparseNode(rt: Runtime, node: EncodedNode)
    requires node == Person([Property("email", Null)])
    ensures TupleLost(rt, PERSONS, SparseEmail(), [JsNull], node)
  {
    assert ReadValue(node, Named("email")) == JsNull;
    assert DefinedValues(rt, node, SparseEmail()) == [JsNull];
    assert JsNull in DefinedValues(rt, node, SparseEmail());
  }

  lemma LostTuple(s: Search, start: NodePattern, d: Definition, vs: seq<JsValue>, id: ObjectId)
    requires TupleSearch(s, start, d, vs) && OffersTuple(start, d)
    requires id in s.cx.nodes && TupleLost(s.cx.runtime, start, d, vs, s.cx.nodes[id]) && forall x | x in s.cx.nodes ::
             x == id
    ensures RowLost(s, start, id)
  {
    EquatedFacts(s, start, d.paths, vs);
    TupleMissedIff(s, start, d, vs, id);
    MissedIsLost(s, start, id);
  }

  function SparseEmail(): Definition {
    Define(UniqueKey, None, "email").(sparse := true)
  }

  /** `MATCH (n: Person) WHERE n.email = $email` with the parameter missing, and a person without email. */
  lemma UndefinedConstantLosesRow()
    ensures RowLost(OneNodeSearch(SampleRuntime(), map[], Test(MissingParameter()), AllProperties, [], Person([])),
                    PERSONS, 0)
  {
    HostLanguageIsMet();
    var node := Person([]);
    var s := OneNodeSearch(SampleRuntime(), map[], Test(MissingParameter()), AllProperties, [], node);
    BuiltIsPrepared(s, Envelope(Null, map[0 := node]), [0], AllProperties, []);
    UndefinedIsLost(s);
  }

  lemma UndefinedIsLost(s: Search)
    requires Prepared(s) && s.advanced.None? && s.where == Some(Test(MissingParameter())) && s.ix.mode.AllProperties?
    requires s.cx.parameters == map[] && s.cx.nodes == map[0 := Person([])]
    ensures RowLost(s, PERSONS, 0)
  {
    PathIsPlain("email");
    OneItem(s, PERSONS, MissingParameter());
    UndefinedIsMissed(s);
    MissedIsLost(s, PERSONS, 0);
  }

  lemma UndefinedIsMissed(s: Search)
    requires Prepared(s) && s.where == Some(Test(MissingParameter())) && s.ix.mode.AllProperties?
    requires s.cx.parameters == map[] && s.cx.nodes == map[0 := Person([])]
    requires Allowed(s, PERSONS) == Some(SelectItem(s, Some("Person"), Indexable(Named("email"), [JsUndefined])).ids)
    ensures Missed(s, PERSONS, 0)
  {
    assert Unfold(true);
    PathIsPlain("email");
    SimpleDecides(s, PERSONS, MissingParameter(), 0);
    assert forall key :: !NodeIndexedUnder(AllProperties, StableKeys(s.cx.runtime), Person([]), key);
  }

  function MissingParameter(): Predicate {
    Predicate(PathOf("n", Some(Named("email"))), Equal, Constant(Parameter("email")))
  }

  /** `MATCH (n) WHERE n.name = "x"` with name indexed for persons, beside a person a node of no type of that name. */
  lemma TypedPropertyLosesRow()
    ensures !Conflict(SampleRuntime(), NamesakeGraph().nodes, Pairs([0, 1], []))
    ensures BuiltFor(NamesakeSearch(), NamesakeGraph(), [0, 1], PersonNames(), [])
    ensures RunPlanned(NamesakeSearch(), OneClause(NODES)) != RunAll(NamesakeSearch(), OneClause(NODES))
  {
    HostLanguageIsMet();
    var s := NamesakeSearch();
    BuiltIsPrepared(s, NamesakeGraph(), [0, 1], PersonNames(), []);
    NamesakeDiffers(s);
  }

  lemma NamesakeDiffers(s: Search)
    requires Prepared(s) && BuiltFor(s, NamesakeGraph(), [0, 1], PersonNames(), [])
    requires s.where == Some(Test(Comparison("name", Equal, JsString("x"))))
    ensures RunPlanned(s, OneClause(NODES)) != RunAll(s, OneClause(NODES))
  {
    var p := Comparison("name", Equal, JsString("x"));
    NamesakeFacts(s.cx.runtime, s.cx.parameters, p);
    NamesakeIsMissed(s);
    MissedDiffers(s, NODES, p, 1);
  }

  function PersonNames(): PropertyMode {
    Configured({PropertyKey(Some("Person"), "name")})
  }

  function Namesake(): EncodedNode {
    ObjectNode(None, [Property("name", Text("x"))])
  }

  function NamesakeGraph(): Envelope {
    Envelope(Null, TwoNodes(Some("Person"), "name", Namesake()))
  }

  ghost function NamesakeSearch(): Search {
    assert !Conflict(SampleRuntime(), NamesakeGraph().nodes, Pairs([0, 1], []));
    SearchOf(NamesakeGraph(), [0, 1], PersonNames(), [], SampleRuntime(), map[],
             Test(Comparison("name", Equal, JsString("x"))))
  }

  lemma NamesakeIsMissed(s: Search)
    requires Prepared(s) && BuiltFor(s, NamesakeGraph(), [0, 1], PersonNames(), [])
    requires s.where == Some(Test(Comparison("name", Equal, JsString("x"))))
    ensures Missed(s, NODES, 1)
  {
    var p := Comparison("name", Equal, JsString("x"));
    NamesakeFacts(s.cx.runtime, s.cx.parameters, p);
    UnlistedIsMissed(s, NamesakeGraph(), [0, 1], PersonNames(), NODES, p, Some("Person"), Namesake());
  }

  lemma NamesakeFacts(rt: Runtime, parameters: map<string, JsValue>, p: Predicate)
    requires p == Comparison("name", Equal, JsString("x"))
    ensures Membership("n", p) && Values(parameters, p).Some? &&
            Passes(rt, parameters, p, ReadValue(Namesake(), p.left.path.value))
    ensures ShouldIndex(PersonNames(), Some("Person"), "name")
    ensures forall q | q in Namesake().props :: !ShouldIndex(PersonNames(), None, q.name)
  {
    PathIsPlain("name");
    var anyone, person := PropertyKey(None, "name"), PropertyKey(Some("Person"), "name");
    assert anyone[0] == '*' && person[0] == 'P';
    assert ReadValue(Namesake(), Named("name")) == JsString("x");
  }

  /** `MATCH (n) WHERE n.$kind = "object"` and an object. */
  lemma KindLosesRow()
    ensures var s := OneNodeSearch(SampleRuntime(), map[], KindCondition("n", "object"), AllProperties, [], Person([]));
            RunPlanned(s, OneClause(NODES)) == Some([]) && RunAll(s, OneClause(NODES)) != Some([])
  {
    HostLanguageIsMet();
    var node := Person([]);
    var s := OneNodeSearch(SampleRuntime(), map[], KindCondition("n", "object"), AllProperties, [], node);
    BuiltIsReady(s, Envelope(Null, map[0 := node]), [0], AllProperties, []);
    KindIsLost(s);
  }

  lemma KindIsLost(s: Search)
    requires SearchReady(s) && GraphOf(s.ix, s.cx.nodes) && s.ix.mode.AllProperties? && s.advanced.None?
    requires s.where == Some(KindCondition("n", "object")) && s.cx.nodes == map[0 := Person([])]
    ensures RunPlanned(s, OneClause(NODES)) == Some([]) && RunAll(s, OneClause(NODES)) != Some([])
  {
    assert OneClause(NODES) == [AllNodes("n")];
    assert KindOf(s.cx.nodes[0]) == "object";
    KindStatementExact(s, "n", "object");
  }
}
