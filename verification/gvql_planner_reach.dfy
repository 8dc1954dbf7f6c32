/** How far planning reaches: which conditions it takes apart, and what the indexes leave. */
module GvqlPlannerReach {
  import opened EncodedGraph
  import opened GvqlExpressions
  import opened GvqlMatcher
  import opened GvqlPlanner
  import opened Folding

  /** Without NOT, and joined by this connective only. */
  predicate JoinedBy(c: Condition, mode: Mode) {
    match c
    case Test(_) => true
    case Not(_) => false
    case And(l, r) => mode == AllOf && JoinedBy(l, mode) && JoinedBy(r, mode)
    case Or(l, r) => mode == AnyOf && JoinedBy(l, mode) && JoinedBy(r, mode)
  }

  /** The predicates from left to right. */
  function Leaves(c: Condition): seq<Predicate> {
    match c
    case Test(p) => [p]
    case Not(n) => Leaves(n)
    case And(l, r) => Leaves(l) + Leaves(r)
    case Or(l, r) => Leaves(l) + Leaves(r)
  }

  /** Such a condition, and no other, is taken apart, into all its predicates in order. */
  lemma {:induction false} TakenApart(c: Condition, mode: Mode)
    ensures Flatten(c, mode) == if JoinedBy(c, mode) then Some(Leaves(c)) else None
  {
    match c
    case And(l, r) =>
      TakenApart(l, mode);
      TakenApart(r, mode);
    case Or(l, r) =>
      TakenApart(l, mode);
      TakenApart(r, mode);
    case _ =>
  }

  /** A condition of one connective gets the mode of it, a single predicate that of AND, any other none. */
  lemma ModeOf(c: Condition)
    ensures ChosenMode(c) == if JoinedBy(c, AllOf) then Some(AllOf) else if JoinedBy(c, AnyOf) then Some(AnyOf)
                             else None
  {
    TakenApart(c, AllOf);
    TakenApart(c, AnyOf);
  }

  /** Every selection an advanced index offers narrows, and besides it every property selection that does not scan. */
  lemma IndexesLeave(mode: Mode, advanced: seq<Selection>, properties: seq<Selection>, id: ObjectId)
    ensures advanced != [] ==>
              (id in Combined(mode, advanced, properties) <==>
               (forall x | x in advanced :: id in x.ids) &&
               (forall x | x in properties && x.source != FullScan :: id in x.ids))
    ensures advanced == [] && mode == AnyOf ==>
              (id in Combined(mode, advanced, properties) <==> exists x | x in properties :: id in x.ids)
    ensures advanced == [] && mode == AllOf && properties != [] ==>
              (id in Combined(mode, advanced, properties) <==> forall x | x in properties :: id in x.ids)
  {
    var kept := NotFullScan(properties);
    KeptMember(properties);
    if advanced != [] {
      assert (advanced + kept)[0] in advanced;
      assert forall x :: x in advanced + kept <==> x in advanced || x in kept;
    }
  }

  lemma {:induction false} KeptMember(ss: seq<Selection>)
    ensures forall x :: x in NotFullScan(ss) <==> x in ss && x.source != FullScan
    decreases |ss|
  {
    if ss != [] {
      KeptMember(ss[..|ss| - 1]);
      assert ss == ss[..|ss| - 1] + [ss[|ss| - 1]];
    }
  }

  /** The operators an advanced index serves whatever is on the left, and those it serves for a path of the start. */
  predicate IsServed(alias: string, p: Predicate) {
    || p.operator == Equal
    || (p.left.PathOf? && p.left.alias == alias && p.left.path.Some? &&
        p.operator in {Greater, GreaterEqual, Less, LessEqual, Contains, StartsWith, EndsWith})
  }

  /**
   * With advanced indexes a statement fails before any row is matched exactly when its conjuncts hold a constant such
   * an index is asked with and that cannot be evaluated.
   */
  lemma PlanningFailsIff(s: Search, start: NodePattern)
    ensures PlanningFails(s, start) <==>
            && s.advanced.Some? && s.where.Some? && JoinedBy(s.where.value, AllOf)
            && exists p | p in Leaves(s.where.value) ::
                 IsServed(start.alias, p) && !ContainsPath(p.right) && Evaluate(s.cx, map[], p.right) == None
  {
    assert Unfold(true);
    if s.where.Some? {
      TakenApart(s.where.value, AllOf);
      forall p: Predicate ensures ConstantFails(s.cx, start.alias, p) <==>
             IsServed(start.alias, p) && !ContainsPath(p.right) && Evaluate(s.cx, map[], p.right) == None {
      }
    }
  }
}
