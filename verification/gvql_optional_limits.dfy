/** Where planning an optional pattern adds a row. */
module GvqlOptionalLimits {
  import opened EncodedGraph
  import opened GvqlValues
  import opened GvqlExpressions
  import opened GvqlIndex
  import opened GvqlIndexKeys
  import opened GvqlAdvancedIndex
  import opened GvqlMatcher
  import opened GvqlPlanner
  import opened GvqlSelectionSafety
  import opened GvqlPlanEquivalence
  import opened GvqlPlanLimits
  import opened GvqlBuiltIndexes
  import opened GvqlExactProperties
  import opened Folding

  /** `MATCH first OPTIONAL MATCH (start) OPTIONAL MATCH later`. */
  function Clauses(first: Pattern, start: NodePattern, later: Pattern): seq<Clause> {
    [Clause(first, false), Clause(Pattern(start, []), true), Clause(later, true)]
  }

  /** A row comes from one of the first pattern, kept or extended by the second clause, and so on. */
  lemma RowsByStep(ix: GraphIndex, first: Pattern, start: NodePattern, later: Pattern,
                   select: NodePattern -> seq<ObjectId>, x: Binding)
    ensures x in MatchClauses(ix, Clauses(first, start, later), select, 3) <==>
            exists y, z | y in MatchOne(ix, first, map[], select(first.start)) &&
                          z in MatchInput(ix, Clause(Pattern(start, []), true), y, select(start)) ::
              x in MatchInput(ix, Clause(later, true), z, select(later.start))
  {
    var clauses, run := Clauses(first, start, later), Matching(ix, select);
    assert RunClauses(clauses, run, 0) == [map[]];
    assert RunClauses(clauses, run, 1) == ConcatMap([map[]], run(clauses[0]));
    SingleConcat(map[], run(clauses[0]));
    ConcatMapMember(RunClauses(clauses, run, 2), run(clauses[2]), x);
    forall z {
      ConcatMapMember(RunClauses(clauses, run, 1), run(clauses[1]), z);
    }
  }

  /** A start with no candidate left keeps the row, and the later pattern is free to bind the alias. */
  lemma PlannedHasRow(s: Search, first: Pattern, start: NodePattern, later: Pattern, y: Binding, x: Binding)
    requires GraphOf(s.ix, s.cx.nodes) && CandidatesOf(s, start) == [] && start.alias !in y
    requires Satisfies(s.cx.nodes, first, |first.chain|, map[], y, CandidatesOf(s, first.start))
    requires Satisfies(s.cx.nodes, later, |later.chain|, y, x, CandidatesOf(s, later.start))
    ensures x in MatchPlanned(s, Clauses(first, start, later))
  {
    var select := PlannedCandidates(s);
    assert select(start) == CandidatesOf(s, start) && select(first.start) == CandidatesOf(s, first.start);
    assert select(later.start) == CandidatesOf(s, later.start);
    RowsByStep(s.ix, first, start, later, select, x);
    MatchOneExact(s.ix, s.cx.nodes, first, map[], y, select(first.start));
    assert MatchInput(s.ix, Clause(Pattern(start, []), true), y, []) == [y];
    OptionalExact(s.ix, s.cx.nodes, later, y, x, select(later.start));
  }

  /** With candidates, every row has the alias bound to one of them. */
  lemma UnplannedBinds(s: Search, first: Pattern, start: NodePattern, later: Pattern, x: Binding)
    requires SearchReady(s) && GraphOf(s.ix, s.cx.nodes) && TypeCandidates(s.ix, start.typeName) != []
    requires start.alias !in Aliases(first) && x in MatchAll(s, Clauses(first, start, later))
    ensures start.alias in x && MatchesType(s.cx.nodes, x[start.alias], start.typeName)
  {
    var select := TypedCandidates(s.ix);
    var ids := select(start);
    assert ids == TypeCandidates(s.ix, start.typeName);
    RowsByStep(s.ix, first, start, later, select, x);
    var y, z :| y in MatchOne(s.ix, first, map[], select(first.start)) &&
                z in MatchInput(s.ix, Clause(Pattern(start, []), true), y, ids) &&
                x in MatchInput(s.ix, Clause(later, true), z, select(later.start));
    MatchOneExact(s.ix, s.cx.nodes, first, map[], y, select(first.start));
    assert Unfold(true);
    FirstIsBound(s, start, ids, y, z);
    OptionalExact(s.ix, s.cx.nodes, later, z, x, select(later.start));
    assert Extends(z, x);
  }

  lemma FirstIsBound(s: Search, start: NodePattern, ids: seq<ObjectId>, y: Binding, z: Binding)
    requires SearchReady(s) && GraphOf(s.ix, s.cx.nodes) && start.alias !in y
    requires ids == TypeCandidates(s.ix, start.typeName) != []
    requires z in MatchInput(s.ix, Clause(Pattern(start, []), true), y, ids)
    ensures start.alias in z && MatchesType(s.cx.nodes, z[start.alias], start.typeName)
  {
    StartsMember(s.ix, start, y, ids, ids, z);
    TypedMatch(s, start.typeName, ids[0]);
    var one: Binding := y[start.alias := ids[0]];
    StartsMember(s.ix, start, y, ids, ids, one);
    assert one in Starts(s.ix, start, y, ids, ids);
  }

  lemma TypedMatch(s: Search, typeName: Option<string>, id: ObjectId)
    requires SearchReady(s) && id in TypeCandidates(s.ix, typeName)
    ensures MatchesType(s.cx.nodes, id, typeName)
  {
  }

  /**
   * If planning leaves an optional start no candidate although nodes of its type exist, a row in which a later pattern
   * binds the alias to a node of another type is found by the planned run and not by the unplanned one.
   */
  lemma OptionalAddsRow(s: Search, first: Pattern, start: NodePattern, later: Pattern, y: Binding, x: Binding)
    requires SearchReady(s) && GraphOf(s.ix, s.cx.nodes) && s.where.Some? && TotalCondition(s.where.value)
    requires s.advanced.None? && CandidatesOf(s, start) == [] && TypeCandidates(s.ix, start.typeName) != []
    requires start.alias !in Aliases(first)
    requires Satisfies(s.cx.nodes, first, |first.chain|, map[], y, CandidatesOf(s, first.start))
    requires Satisfies(s.cx.nodes, later, |later.chain|, y, x, CandidatesOf(s, later.start))
    requires start.alias in x && !MatchesType(s.cx.nodes, x[start.alias], start.typeName)
    requires Decided(s, x) == Some(true)
    ensures var clauses := Clauses(first, start, later);
            var planned, all := RunPlanned(s, clauses), RunAll(s, clauses);
            planned.Some? && all.Some? && x in planned.value && x !in all.value
  {
    var clauses := Clauses(first, start, later);
    var all, planned := MatchAll(s, clauses), MatchPlanned(s, clauses);
    PlannedRows(s, clauses);
    FilteredKeeps(s, all);
    FilteredKeeps(s, planned);
    forall b ensures Decided(s, b).Some? {
      TotalDecides(s.cx, b, s.where.value);
    }
    assert start.alias !in y by {
      assert Unfold(true);
    }
    PlannedHasRow(s, first, start, later, y, x);
    KeepMember(planned, AcceptedBy(s), x);
    KeepMember(all, AcceptedBy(s), x);
    if x in all {
      UnplannedBinds(s, first, start, later, x);
    }
  }

  // `MATCH (a) OPTIONAL MATCH (b: T) OPTIONAL MATCH (a)-[:r]->(b) WHERE b.v = 1`.

  const A := Pattern(NodePattern("a", None), [])
  const B := NodePattern("b", Some("T"))
  const A_TO_B := Pattern(NodePattern("a", None), [Link(Outward, Some("r"), NodePattern("b", None))])
  const V_IS_ONE := Predicate(PathOf("b", Some(Path("v", Name))), Equal, Constant(Value(JsNumber(1.0))))

  /** A node of type `T` without `v`, and a node that refers by `r` to one of no type with `v = 1`. */
  function Graph(): map<ObjectId, EncodedNode> {
    map[0 := ObjectNode(Some("T"), []), 1 := ObjectNode(None, [Property("r", Ref(2))]),
        2 := ObjectNode(None, [Property("v", Number(1.0))])]
  }

  const ROW: Binding := map["a" := 1, "b" := 2]

  ghost function GraphSearch(): Search {
    assert !Conflict(SampleRuntime(), Graph(), Pairs([0, 1, 2], []));
    SearchOf(Envelope(Null, Graph()), [0, 1, 2], AllProperties, [], SampleRuntime(), map[], Test(V_IS_ONE))
  }

  ghost predicate OverGraph(s: Search) {
    && SearchReady(s) && GraphOf(s.ix, s.cx.nodes) && s.cx.nodes == Graph() && s.ix.mode.AllProperties?
    && s.advanced.None? && s.where == Some(Test(V_IS_ONE))
  }

  /** No node of type `T` has the value, so planning leaves the first pattern nothing. */
  lemma NothingLeft(s: Search)
    requires OverGraph(s)
    ensures CandidatesOf(s, B) == []
  {
    var allowed := Allowed(s, B);
    if CandidatesOf(s, B) != [] {
      var id := CandidatesOf(s, B)[0];
      RestrictedMember(TypeCandidates(s.ix, B.typeName), allowed, id);
      TypedMatch(s, B.typeName, id);
      assert id == 0;
      NoneListed(s);
    }
  }

  lemma NotBucketed(s: Search, v: string)
    requires OverGraph(s)
    ensures 0 !in Bucket(s.ix.byProperty, PropertyIndexKey(Some("T"), "v", v))
  {
    if 0 in Bucket(s.ix.byProperty, PropertyIndexKey(Some("T"), "v", v)) {
      var _ := BucketWitness(s, Some("T"), "v", v, 0);
    }
  }

  lemma NotSelected(s: Search)
    requires OverGraph(s)
    ensures 0 !in SelectItem(s, Some("T"), Indexable(Path("v", Name), [JsNumber(1.0)])).ids
  {
    var item, v := Indexable(Path("v", Name), [JsNumber(1.0)]), StableKey(s.cx.runtime, JsNumber(1.0));
    assert |ID_PATH| == 3 && |TYPE_PATH| == 5;
    assert Keys(s.cx.runtime, Some("T"), item) == [PropertyIndexKey(Some("T"), "v", v)];
    NotBucketed(s, v);
  }

  lemma NoneListed(s: Search)
    requires OverGraph(s)
    ensures Allowed(s, B).Some? && 0 !in Allowed(s, B).value
  {
    OneItem(s, B, V_IS_ONE);
    NotSelected(s);
  }

  /** The condition is not on `a`, so nothing narrows it. */
  lemma AnyStart(s: Search)
    requires OverGraph(s)
    ensures 1 in CandidatesOf(s, A_TO_B.start)
  {
    assert IndexableItem(s.cx, "a", V_IS_ONE).None?;
    assert [V_IS_ONE][..0] == [];
    assert IndexableItems(s.cx, "a", [V_IS_ONE]) == [];
    assert Allowed(s, A_TO_B.start).None?;
  }

  lemma RowLinked()
    ensures LinkHolds(Graph(), ROW, PreviousAlias(A_TO_B, 0), A_TO_B.chain[0])
    ensures AliasesTo(A_TO_B, 1) == {"a", "b"} == ROW.Keys
  {
    var visits := Visits(Graph()[1]);
    assert visits[0] == Visit("r", Ref(2)) && visits[0] in visits;
    assert Refers(Graph(), 1, 2, Some("r"));
    assert A_TO_B.chain[0].node.alias == "b";
  }

  lemma RowHolds(s: Search)
    requires OverGraph(s)
    ensures Satisfies(s.cx.nodes, A, 0, map[], map["a" := 1], CandidatesOf(s, A.start))
    ensures Satisfies(s.cx.nodes, A_TO_B, 1, map["a" := 1], ROW, CandidatesOf(s, A_TO_B.start))
  {
    AnyStart(s);
    RowLinked();
    var y: Binding := map["a" := 1];
    assert y.Keys == {"a"} && AliasesTo(A, 0) == {"a"};
    assert PatternHolds(s.cx.nodes, y, A, 0, CandidatesOf(s, A.start));
    assert PatternHolds(s.cx.nodes, ROW, A_TO_B, 1, CandidatesOf(s, A_TO_B.start));
    assert y.Keys + AliasesTo(A_TO_B, 1) == ROW.Keys;
  }

  lemma RowAccepted(s: Search)
    requires OverGraph(s)
    ensures Decided(s, ROW) == Some(true)
  {
    assert |ID_PATH| == 3 && |KIND_PATH| == 5 && |TYPE_PATH| == 5;
    assert ReadPath(s.cx, ROW, "b", V_IS_ONE.left.path) == JsNumber(1.0);
    assert Evaluate(s.cx, ROW, V_IS_ONE.left) == Some(JsNumber(1.0));
    assert Evaluate(s.cx, ROW, V_IS_ONE.right) == Some(JsNumber(1.0));
    assert Decide(s.cx, ROW, Test(V_IS_ONE)) == DecidePredicate(s.cx, ROW, V_IS_ONE);
  }

  lemma AddsRow(s: Search)
    requires OverGraph(s)
    ensures var planned, all := RunPlanned(s, Clauses(A, B, A_TO_B)), RunAll(s, Clauses(A, B, A_TO_B));
            planned.Some? && all.Some? && ROW in planned.value && ROW !in all.value
  {
    NothingLeft(s);
    RowHolds(s);
    RowAccepted(s);
    TypePresent(s);
    OptionalAddsRow(s, A, B, A_TO_B, map["a" := 1], ROW);
  }

  /** The planned run has the row, the unplanned one has not. */
  lemma NarrowedOptionalAddsRow()
    ensures var s := GraphSearch();
            var planned, all := RunPlanned(s, Clauses(A, B, A_TO_B)), RunAll(s, Clauses(A, B, A_TO_B));
            planned.Some? && all.Some? && ROW in planned.value && ROW !in all.value
  {
    HostLanguageIsMet();
    BuiltIsReady(GraphSearch(), Envelope(Null, Graph()), [0, 1, 2], AllProperties, []);
    AddsRow(GraphSearch());
  }

  lemma TypePresent(s: Search)
    requires OverGraph(s)
    ensures TypeCandidates(s.ix, B.typeName) != []
  {
    assert 0 in s.cx.nodes && TypeOf(s.cx.nodes[0]) == Some("T");
    assert 0 in TypeCandidates(s.ix, B.typeName);
  }
}
