/** Planned and unplanned runs agree. */
module GvqlPlanEquivalence {
  // Planned matching against matching from all candidates of the right type.

  import opened EncodedGraph
  import opened GvqlValues
  import opened GvqlExpressions
  import opened GvqlIndex
  import opened GvqlIndexKeys
  import opened GvqlAdvancedIndex
  import opened GvqlMatcher
  import opened GvqlPlanner
  import opened GvqlSelectionSafety
  import opened Folding

  // The two ways to run a statement.

  function TypedCandidates(ix: GraphIndex): NodePattern -> seq<ObjectId> {
    (start: NodePattern) => TypeCandidates(ix, start.typeName)
  }

  function AllowedBy(s: Search): NodePattern -> Option<set<ObjectId>> {
    (start: NodePattern) => Allowed(s, start)
  }

  function Narrowed(typed: NodePattern -> seq<ObjectId>,
                    allowed: NodePattern -> Option<set<ObjectId>>): NodePattern -> seq<ObjectId> {
    (start: NodePattern) => Restricted(typed(start), allowed(start))
  }

  function PlannedCandidates(s: Search): NodePattern -> seq<ObjectId> {
    Narrowed(TypedCandidates(s.ix), AllowedBy(s))
  }

  function MatchAll(s: Search, clauses: seq<Clause>): seq<Binding> {
    MatchClauses(s.ix, clauses, TypedCandidates(s.ix), |clauses|)
  }

  function MatchPlanned(s: Search, clauses: seq<Clause>): seq<Binding> {
    MatchClauses(s.ix, clauses, PlannedCandidates(s), |clauses|)
  }

  /** `matchesWhere`; `None` is an evaluation error. */
  function Decided(s: Search, b: Binding): Option<bool> {
    if s.where.None? then Some(true) else Decide(s.cx, b, s.where.value)
  }

  /** The rows WHERE accepts; an error in any row fails the statement. */
  function Filtered(s: Search, bs: seq<Binding>): Option<seq<Binding>> {
    if bs == [] then Some([])
    else
      var last := bs[|bs| - 1];
      var before := Filtered(s, bs[..|bs| - 1]);
      if before.None? || Decided(s, last).None? then None
      else Some(before.value + (if Decided(s, last).value then [last] else []))
  }

  function RunAll(s: Search, clauses: seq<Clause>): Option<seq<Binding>> {
    Filtered(s, MatchAll(s, clauses))
  }

  /** Running the first `n` clauses when preparing a clause may fail. */
  function TryClauses(clauses: seq<Clause>, run: Clause -> Option<Binding -> seq<Binding>>,
                      n: nat): Option<seq<Binding>>
    requires n <= |clauses|
  {
    if n == 0 then Some([map[]])
    else
      var before, next := TryClauses(clauses, run, n - 1), run(clauses[n - 1]);
      if before.None? || next.None? then None else Some(ConcatMap(before.value, next.value))
  }

  /** Planning a clause, then matching it. */
  ghost function Planning(s: Search): Clause -> Option<Binding -> seq<Binding>> {
    (c: Clause) =>
      if PlanningFails(s, c.pattern.start) then None else Some(Matcher(s.ix, c, CandidatesOf(s, c.pattern.start)))
  }

  ghost function RunPlanned(s: Search, clauses: seq<Clause>): Option<seq<Binding>> {
    var matched := TryClauses(clauses, Planning(s), |clauses|);
    if matched.None? then None else Filtered(s, matched.value)
  }

  /** The matching and filtering part of `executeGvqlStatement`. */
  method Execute(s: Search, clauses: seq<Clause>) returns (rows: Option<seq<Binding>>)
    ensures rows == RunPlanned(s, clauses)
  {
    var bs := MatchBindings(s, clauses, Planning(s));
    if bs.None? {
      return None;
    }
    rows := FilterRows(s, bs.value);
  }

  ghost predicate IsPlanning(run: Clause -> Option<Binding -> seq<Binding>>, s: Search) {
    forall u {:trigger Unfold(u)} | Unfold(u) :: run == Planning(s)
  }

  /** `matchBindingsWithPlan`. */
  method MatchBindings(s: Search, clauses: seq<Clause>, ghost run: Clause -> Option<Binding -> seq<Binding>>)
    returns (bs: Option<seq<Binding>>)
    requires IsPlanning(run, s)
    ensures bs == TryClauses(clauses, run, |clauses|)
  {
    bs := Some([map[]]);
    for n := 0 to |clauses|
      invariant bs.Some? && bs == TryClauses(clauses, run, n)
    {
      bs := MatchNext(s, clauses, run, n, bs.value);
      if bs.None? {
        ErrorStays(clauses, run, n + 1);
        return;
      }
    }
  }

  /** Plans and matches one clause. */
  method MatchNext(s: Search, clauses: seq<Clause>, ghost run: Clause -> Option<Binding -> seq<Binding>>, n: nat,
                   bs: seq<Binding>)
    returns (next: Option<seq<Binding>>)
    requires IsPlanning(run, s) && n < |clauses| && TryClauses(clauses, run, n) == Some(bs)
    ensures next == TryClauses(clauses, run, n + 1)
  {
    assert Unfold(true);
    TriedNext(clauses, run, n);
    var ids := Candidates(s, clauses[n].pattern.start);
    if ids.None? {
      return None;
    }
    var matched := MatchPattern(s.ix, clauses[n], bs, ids.value);
    next := Some(matched);
  }

  lemma TriedNext(clauses: seq<Clause>, run: Clause -> Option<Binding -> seq<Binding>>, n: nat)
    requires n < |clauses| && TryClauses(clauses, run, n).Some?
    ensures TryClauses(clauses, run, n + 1) ==
            var next := run(clauses[n]);
            if next.None? then None else Some(ConcatMap(TryClauses(clauses, run, n).value, next.value))
  {
  }

  lemma {:induction false} ErrorStays(clauses: seq<Clause>, run: Clause -> Option<Binding -> seq<Binding>>, n: nat)
    requires n <= |clauses| && TryClauses(clauses, run, n).None?
    ensures TryClauses(clauses, run, |clauses|).None?
    decreases |clauses| - n
  {
    if n < |clauses| {
      ErrorStays(clauses, run, n + 1);
    }
  }

  lemma {:induction false} TriedSucceeds(clauses: seq<Clause>, attempt: Clause -> Option<Binding -> seq<Binding>>,
                                         run: Clause -> Binding -> seq<Binding>, n: nat)
    requires n <= |clauses| && forall c | c in clauses :: attempt(c) == Some(run(c))
    ensures TryClauses(clauses, attempt, n) == Some(RunClauses(clauses, run, n))
    decreases n
  {
    if n > 0 {
      TriedSucceeds(clauses, attempt, run, n - 1);
      assert clauses[n - 1] in clauses;
    }
  }

  method FilterRows(s: Search, bs: seq<Binding>) returns (rows: Option<seq<Binding>>)
    ensures rows == Filtered(s, bs)
  {
    var kept: seq<Binding> := [];
    for i := 0 to |bs|
      invariant Filtered(s, bs[..i]) == Some(kept)
    {
      Chopped(bs, i);
      var decided := Decided(s, bs[i]);
      if decided.None? {
        FailureStays(s, bs, i + 1);
        return None;
      }
      assert kept + [] == kept;
      kept := kept + if decided.value then [bs[i]] else [];
    }
    assert bs[..|bs|] == bs;
    rows := Some(kept);
  }

  lemma {:induction false} FailureStays(s: Search, bs: seq<Binding>, i: nat)
    requires i <= |bs| && Filtered(s, bs[..i]).None?
    ensures Filtered(s, bs).None?
    decreases |bs| - i
  {
    if i == |bs| {
      assert bs[..i] == bs;
    } else {
      Chopped(bs, i);
      FailureStays(s, bs, i + 1);
    }
  }

  // Filtering sequences.

  function Keep(bs: seq<Binding>, p: Binding -> bool): seq<Binding> {
    if bs == [] then [] else Keep(bs[..|bs| - 1], p) + (if p(bs[|bs| - 1]) then [bs[|bs| - 1]] else [])
  }

  lemma {:induction false} KeepConcat(a: seq<Binding>, b: seq<Binding>, p: Binding -> bool)
    ensures Keep(a + b, p) == Keep(a, p) + Keep(b, p)
    decreases |b|
  {
    if b == [] {
      assert a + b == a;
    } else {
      assert (a + b)[..|a + b| - 1] == a + b[..|b| - 1];
      KeepConcat(a, b[..|b| - 1], p);
    }
  }

  lemma {:induction false} KeepMember(bs: seq<Binding>, p: Binding -> bool, x: Binding)
    ensures x in Keep(bs, p) <==> x in bs && p(x)
    decreases |bs|
  {
    if bs != [] {
      KeepMember(bs[..|bs| - 1], p, x);
      assert bs == bs[..|bs| - 1] + [bs[|bs| - 1]];
    }
  }

  lemma {:induction false} KeepWhole(bs: seq<Binding>, p: Binding -> bool)
    requires forall b | b in bs :: p(b)
    ensures Keep(bs, p) == bs
    decreases |bs|
  {
    if bs != [] {
      assert bs[|bs| - 1] in bs;
      KeepWhole(bs[..|bs| - 1], p);
      assert bs == bs[..|bs| - 1] + [bs[|bs| - 1]];
    }
  }

  lemma {:induction false} KeepNone(bs: seq<Binding>, p: Binding -> bool)
    requires forall b | b in bs :: !p(b)
    ensures Keep(bs, p) == []
    decreases |bs|
  {
    if bs != [] {
      assert bs[|bs| - 1] in bs;
      KeepNone(bs[..|bs| - 1], p);
    }
  }

  /** A filter that only drops what a later filter drops anyway. */
  lemma {:induction false} KeepKeep(bs: seq<Binding>, p: Binding -> bool, q: Binding -> bool)
    requires forall b | b in bs && q(b) :: p(b)
    ensures Keep(Keep(bs, p), q) == Keep(bs, q)
    decreases |bs|
  {
    if bs != [] {
      var last := bs[|bs| - 1];
      assert last in bs;
      KeepKeep(bs[..|bs| - 1], p, q);
      KeepConcat(Keep(bs[..|bs| - 1], p), if p(last) then [last] else [], q);
      assert Keep([last], q) == if q(last) then [last] else [];
    }
  }

  lemma ConcatMapLast(bs: seq<Binding>, last: Binding, f: Binding -> seq<Binding>)
    ensures ConcatMap(bs + [last], f) == ConcatMap(bs, f) + f(last)
  {
    assert (bs + [last])[..|bs|] == bs;
  }

  /** A filter the expansion neither loses nor gains commutes with it. */
  lemma {:induction false} ConcatMapKeep(bs: seq<Binding>, f: Binding -> seq<Binding>, p: Binding -> bool)
    requires forall b, x | b in bs && x in f(b) :: p(x) == p(b)
    ensures ConcatMap(Keep(bs, p), f) == Keep(ConcatMap(bs, f), p)
    decreases |bs|
  {
    if bs != [] {
      var last, front := bs[|bs| - 1], bs[..|bs| - 1];
      assert last in bs && forall b | b in front :: b in bs;
      ConcatMapKeep(front, f, p);
      KeepConcat(ConcatMap(front, f), f(last), p);
      if p(last) {
        KeepWhole(f(last), p);
        ConcatMapLast(Keep(front, p), last, f);
      } else {
        KeepNone(f(last), p);
        assert Keep(front, p) + [] == Keep(front, p);
      }
    }
  }

  /** Inputs whose results are all dropped may be dropped before. */
  lemma {:induction false} DropBefore(bs: seq<Binding>, f: Binding -> seq<Binding>, p: Binding -> bool,
                                      q: Binding -> bool)
    requires forall b, x | b in bs && !p(b) && x in f(b) :: !q(x)
    ensures Keep(ConcatMap(bs, f), q) == Keep(ConcatMap(Keep(bs, p), f), q)
    decreases |bs|
  {
    if bs != [] {
      var last, front := bs[|bs| - 1], bs[..|bs| - 1];
      assert last in bs && forall b | b in front :: b in bs;
      DropBefore(front, f, p, q);
      KeepConcat(ConcatMap(front, f), f(last), q);
      if p(last) {
        ConcatMapLast(Keep(front, p), last, f);
        KeepConcat(ConcatMap(Keep(front, p), f), f(last), q);
      } else {
        KeepNone(f(last), q);
        assert Keep(front, p) + [] == Keep(front, p);
      }
    }
  }

  lemma {:induction false} SameKept(bs: seq<Binding>, f: Binding -> seq<Binding>, g: Binding -> seq<Binding>,
                                    q: Binding -> bool)
    requires forall b | b in bs :: Keep(f(b), q) == Keep(g(b), q)
    ensures Keep(ConcatMap(bs, f), q) == Keep(ConcatMap(bs, g), q)
    decreases |bs|
  {
    if bs != [] {
      var last, front := bs[|bs| - 1], bs[..|bs| - 1];
      assert last in bs && forall b | b in front :: b in bs;
      SameKept(front, f, g, q);
      KeepConcat(ConcatMap(front, f), f(last), q);
      KeepConcat(ConcatMap(front, g), g(last), q);
    }
  }

  // Narrowing one pattern.

  ghost function InAllowed(alias: string, allowed: set<ObjectId>): Binding -> bool {
    (b: Binding) => alias in b && b[alias] in allowed
  }

  lemma {:induction false} RestrictedMember(ids: seq<ObjectId>, allowed: Option<set<ObjectId>>, id: ObjectId)
    ensures id in Restricted(ids, allowed) <==> id in ids && (allowed.Some? ==> id in allowed.value)
    decreases |ids|
  {
    if allowed.Some? && ids != [] {
      RestrictedMember(ids[..|ids| - 1], allowed, id);
      assert ids == ids[..|ids| - 1] + [ids[|ids| - 1]];
    }
  }

  lemma StartsLast(ix: GraphIndex, start: NodePattern, b: Binding, front: seq<ObjectId>, last: ObjectId,
                   selected: seq<ObjectId>)
    ensures Starts(ix, start, b, front + [last], selected) == Starts(ix, start, b, front, selected) +
              (if last in selected && MatchesType(ix.nodes, last, start.typeName) then [b[start.alias := last]] else [])
  {
    assert (front + [last])[..|front|] == front;
  }

  lemma {:induction false} StartsRestricted(ix: GraphIndex, start: NodePattern, b: Binding, ids: seq<ObjectId>,
                                            typed: seq<ObjectId>,
                                            allowed: set<ObjectId>)
    requires forall id | id in ids :: id in typed
    ensures Starts(ix, start, b, Restricted(ids, Some(allowed)), Restricted(typed, Some(allowed))) ==
            Keep(Starts(ix, start, b, ids, typed), InAllowed(start.alias, allowed))
    decreases |ids|
  {
    if ids != [] {
      var last, front := ids[|ids| - 1], ids[..|ids| - 1];
      assert last in ids && forall id | id in front :: id in ids;
      assert ids == front + [last];
      StartsRestricted(ix, start, b, front, typed, allowed);
      RestrictedMember(typed, Some(allowed), last);
      OneMoreStart(ix, start, b, front, last, typed, allowed);
    }
  }

  lemma OneMoreStart(ix: GraphIndex, start: NodePattern, b: Binding, front: seq<ObjectId>, last: ObjectId,
                     typed: seq<ObjectId>,
                     allowed: set<ObjectId>)
    requires last in typed && (last in Restricted(typed, Some(allowed)) <==> last in allowed)
    requires Starts(ix, start, b, Restricted(front, Some(allowed)), Restricted(typed, Some(allowed))) ==
             Keep(Starts(ix, start, b, front, typed), InAllowed(start.alias, allowed))
    ensures Starts(ix, start, b, Restricted(front + [last], Some(allowed)), Restricted(typed, Some(allowed))) ==
            Keep(Starts(ix, start, b, front + [last], typed), InAllowed(start.alias, allowed))
  {
    var p := InAllowed(start.alias, allowed);
    var found := if MatchesType(ix.nodes, last, start.typeName) then [b[start.alias := last]] else [];
    var kept := Restricted(front, Some(allowed));
    assert (front + [last])[..|front|] == front;
    StartsLast(ix, start, b, front, last, typed);
    KeepConcat(Starts(ix, start, b, front, typed), found, p);
    assert Keep(found, p) == if last in allowed then found else [];
    if last in allowed {
      StartsLast(ix, start, b, kept, last, Restricted(typed, Some(allowed)));
    } else {
      assert kept + [] == kept;
      assert Keep(Starts(ix, start, b, front, typed), p) + [] == Keep(Starts(ix, start, b, front, typed), p);
    }
  }

  lemma ExpansionExtends(ix: GraphIndex, nodes: map<ObjectId, EncodedNode>, previous: string, link: Link, b: Binding,
                         x: Binding)
    requires GraphOf(ix, nodes) && x in Expand(ix, previous, link, b)
    ensures Extends(b, x)
  {
    ExpandExact(ix, nodes, previous, link, b, x);
  }

  ghost predicate AllBind(bs: seq<Binding>, alias: string) {
    forall b | b in bs :: alias in b
  }

  lemma ExpandKeep(ix: GraphIndex, nodes: map<ObjectId, EncodedNode>, previous: string, link: Link,
                   before: seq<Binding>,
                   alias: string, allowed: set<ObjectId>)
    requires GraphOf(ix, nodes) && AllBind(before, alias)
    ensures ConcatMap(Keep(before, InAllowed(alias, allowed)), Expander(ix, previous, link)) ==
            Keep(ConcatMap(before, Expander(ix, previous, link)), InAllowed(alias, allowed))
    ensures AllBind(ConcatMap(before, Expander(ix, previous, link)), alias)
  {
    var f := Expander(ix, previous, link);
    forall b, x | b in before && x in f(b)
      ensures InAllowed(alias, allowed)(x) == InAllowed(alias, allowed)(b) && alias in x
    {
      ExpansionExtends(ix, nodes, previous, link, b, x);
    }
    ConcatMapKeep(before, f, InAllowed(alias, allowed));
    forall x | x in ConcatMap(before, f) ensures alias in x {
      ConcatMapMember(before, f, x);
    }
  }

  lemma {:induction false} TraverseKeep(ix: GraphIndex, nodes: map<ObjectId, EncodedNode>, p: Pattern, n: nat,
                                        bs: seq<Binding>,
                                        alias: string, allowed: set<ObjectId>)
    requires GraphOf(ix, nodes) && n <= |p.chain| && AllBind(bs, alias)
    ensures Traverse(ix, p, n, Keep(bs, InAllowed(alias, allowed))) ==
            Keep(Traverse(ix, p, n, bs), InAllowed(alias, allowed))
    ensures AllBind(Traverse(ix, p, n, bs), alias)
  {
    var keep := InAllowed(alias, allowed);
    if n == 0 {
      assert Traverse(ix, p, n, bs) == bs && Traverse(ix, p, n, Keep(bs, keep)) == Keep(bs, keep);
    } else {
      TraverseKeep(ix, nodes, p, n - 1, bs, alias, allowed);
      ExpandKeep(ix, nodes, PreviousAlias(p, n - 1), p.chain[n - 1], Traverse(ix, p, n - 1, bs), alias, allowed);
      TraverseUnrolled(ix, p, n, bs);
      TraverseUnrolled(ix, p, n, Keep(bs, keep));
    }
  }

  lemma TraverseUnrolled(ix: GraphIndex, p: Pattern, n: nat, bs: seq<Binding>)
    requires 0 < n <= |p.chain|
    ensures Traverse(ix, p, n, bs) == ConcatMap(Traverse(ix, p, n - 1, bs),
                                                Expander(ix, PreviousAlias(p, n - 1), p.chain[n - 1]))
  {
  }

  /** With the start not yet bound, narrowing the candidates filters the matches by their start. */
  lemma MatchOneNarrowed(ix: GraphIndex, nodes: map<ObjectId, EncodedNode>, p: Pattern, b: Binding,
                         typed: seq<ObjectId>, allowed: set<ObjectId>)
    requires GraphOf(ix, nodes) && p.start.alias !in b
    ensures MatchOne(ix, p, b, Restricted(typed, Some(allowed))) ==
            Keep(MatchOne(ix, p, b, typed), InAllowed(p.start.alias, allowed))
  {
    StartsRestricted(ix, p.start, b, typed, typed, allowed);
    forall x | x in FirstBindings(ix, p, b, typed) ensures p.start.alias in x {
      StartExact(ix, p, b, x, typed);
      assert Unfold(true);
    }
    TraverseKeep(ix, nodes, p, |p.chain|, FirstBindings(ix, p, b, typed), p.start.alias, allowed);
  }

  /** With the start bound, only its membership in the candidates matters. */
  lemma {:induction false} MatchOneBound(ix: GraphIndex, p: Pattern, b: Binding, typed: seq<ObjectId>,
                                         allowed: Option<set<ObjectId>>)
    requires p.start.alias in b
    requires b[p.start.alias] in typed && allowed.Some? ==> b[p.start.alias] in allowed.value
    ensures MatchOne(ix, p, b, Restricted(typed, allowed)) == MatchOne(ix, p, b, typed)
  {
    var id := b[p.start.alias];
    RestrictedMember(typed, allowed, id);
    var front: seq<ObjectId> := [id][..0];
    assert front == [];
    assert Starts(ix, p.start, b, front, typed) == Starts(ix, p.start, b, front, Restricted(typed, allowed)) == [];
    assert Starts(ix, p.start, b, [id], typed) == Starts(ix, p.start, b, [id], Restricted(typed, allowed));
  }

  // Bindings that cannot become rows.

  /** The clause's start is a candidate of the right type that the indexes left out. */
  ghost predicate LeftOut(c: Clause, typed: seq<ObjectId>, allowed: Option<set<ObjectId>>, b: Binding) {
    var alias := c.pattern.start.alias;
    allowed.Some? && alias in b && b[alias] in typed && b[alias] !in allowed.value
  }

  /** The optional clause was narrowed and its start stayed unbound. */
  ghost predicate StayedUnbound(c: Clause, allowed: Option<set<ObjectId>>, b: Binding) {
    allowed.Some? && c.optional && c.pattern.start.alias !in b
  }

  ghost predicate Lost(clauses: seq<Clause>, typed: NodePattern -> seq<ObjectId>,
                       allowed: NodePattern -> Option<set<ObjectId>>, n: nat, b: Binding)
    requires n <= |clauses|
  {
    forall u {:trigger Unfold(u)} | Unfold(u) ::
      || (exists i | 0 <= i < |clauses| :: LeftOut(clauses[i], AtStart(typed, clauses[i]), AtStart(allowed, clauses[i]),
                                                   b))
      || (exists i | 0 <= i < n :: StayedUnbound(clauses[i], AtStart(allowed, clauses[i]), b))
  }

  ghost function Safe(clauses: seq<Clause>, typed: NodePattern -> seq<ObjectId>,
                      allowed: NodePattern -> Option<set<ObjectId>>, n: nat): Binding -> bool
    requires n <= |clauses|
  {
    (b: Binding) => !Lost(clauses, typed, allowed, n, b)
  }

  /** If clause `i` is optional and narrowed, clause `j` does not mention its start. */
  ghost predicate SilentAt(clauses: seq<Clause>, allowed: NodePattern -> Option<set<ObjectId>>, i: nat, j: nat)
    requires i < |clauses| && j < |clauses|
  {
    clauses[i].optional && AtStart(allowed, clauses[i]).Some? ==>
    clauses[i].pattern.start.alias !in Aliases(clauses[j].pattern)
  }

  /** No clause after a narrowed optional one mentions its start. */
  ghost predicate LaterSilent(clauses: seq<Clause>, allowed: NodePattern -> Option<set<ObjectId>>)
  {
    forall i, j | 0 <= i < j < |clauses| :: SilentAt(clauses, allowed, i, j)
  }

  /** A lost binding extends only to lost ones. */
  lemma LostStaysLost(ix: GraphIndex, nodes: map<ObjectId, EncodedNode>, clauses: seq<Clause>,
                      typed: NodePattern -> seq<ObjectId>,
                      allowed: NodePattern -> Option<set<ObjectId>>, n: nat, selected: seq<ObjectId>, b: Binding,
                          x: Binding)
    requires GraphOf(ix, nodes) && 0 < n <= |clauses| && LaterSilent(clauses, allowed)
    requires Lost(clauses, typed, allowed, n - 1, b) && x in MatchInput(ix, clauses[n - 1], b, selected)
    ensures Lost(clauses, typed, allowed, n, x)
  {
    assert Unfold(true);
    InputExtends(ix, nodes, clauses[n - 1], b, x, selected);
    if i :| 0 <= i < |clauses| && LeftOut(clauses[i], AtStart(typed, clauses[i]), AtStart(allowed, clauses[i]), b) {
      assert LeftOut(clauses[i], AtStart(typed, clauses[i]), AtStart(allowed, clauses[i]), x);
    } else {
      var i :| 0 <= i < n - 1 && StayedUnbound(clauses[i], AtStart(allowed, clauses[i]), b);
      assert SilentAt(clauses, allowed, i, n - 1);
      assert StayedUnbound(clauses[i], AtStart(allowed, clauses[i]), x);
    }
  }

  /** One safe input: both ways give the same safe results. */
  lemma InputNarrowed(ix: GraphIndex, nodes: map<ObjectId, EncodedNode>, clauses: seq<Clause>,
                      typed: NodePattern -> seq<ObjectId>,
                      allowed: NodePattern -> Option<set<ObjectId>>, n: nat, b: Binding)
    requires GraphOf(ix, nodes) && 0 < n <= |clauses| && !Lost(clauses, typed, allowed, n - 1, b)
    ensures Keep(MatchInput(ix, clauses[n - 1], b, AtStart(typed, clauses[n - 1])), Safe(clauses, typed, allowed, n)) ==
            Keep(MatchInput(ix, clauses[n - 1], b,
                            Restricted(AtStart(typed, clauses[n - 1]), AtStart(allowed, clauses[n - 1]))),
                 Safe(clauses, typed, allowed, n))
  {
    assert Unfold(true);
    var c, alias := clauses[n - 1], clauses[n - 1].pattern.start.alias;
    if alias in b {
      assert !LeftOut(c, AtStart(typed, clauses[n - 1]), AtStart(allowed, clauses[n - 1]), b);
      MatchOneBound(ix, c.pattern, b, AtStart(typed, clauses[n - 1]), AtStart(allowed, clauses[n - 1]));
    } else if AtStart(allowed, clauses[n - 1]).Some? {
      UnboundInputNarrowed(ix, nodes, clauses, typed, allowed, n, b);
    }
  }

  lemma UnboundInputNarrowed(ix: GraphIndex, nodes: map<ObjectId, EncodedNode>, clauses: seq<Clause>,
                             typed: NodePattern -> seq<ObjectId>,
                             allowed: NodePattern -> Option<set<ObjectId>>, n: nat, b: Binding)
    requires GraphOf(ix, nodes) && 0 < n <= |clauses| && AtStart(allowed, clauses[n - 1]).Some? &&
             clauses[n - 1].pattern.start.alias !in b
    ensures Keep(MatchInput(ix, clauses[n - 1], b, AtStart(typed, clauses[n - 1])), Safe(clauses, typed, allowed, n)) ==
            Keep(MatchInput(ix, clauses[n - 1], b,
                            Restricted(AtStart(typed, clauses[n - 1]), AtStart(allowed, clauses[n - 1]))),
                 Safe(clauses, typed, allowed, n))
  {
    var c, alias, q := clauses[n - 1], clauses[n - 1].pattern.start.alias, Safe(clauses, typed, allowed, n);
    var all, narrowed := MatchOne(ix, c.pattern, b, AtStart(typed, clauses[n - 1])),
        MatchOne(ix, c.pattern, b, Restricted(AtStart(typed, clauses[n - 1]), AtStart(allowed, clauses[n - 1])));
    var p := InAllowed(alias, AtStart(allowed, clauses[n - 1]).value);
    MatchOneNarrowed(ix, nodes, c.pattern, b, AtStart(typed, clauses[n - 1]), AtStart(allowed, clauses[n - 1]).value);
    forall x | x in all && q(x) ensures p(x) {
      MatchOneExact(ix, nodes, c.pattern, b, x, AtStart(typed, clauses[n - 1]));
      assert Unfold(true);
      assert !LeftOut(c, AtStart(typed, clauses[n - 1]), AtStart(allowed, clauses[n - 1]), x);
    }
    KeepKeep(all, p, q);
    if narrowed == [] && c.optional && all != [] {
      assert StayedUnbound(c, AtStart(allowed, clauses[n - 1]), b);
      assert Keep([b], q) == [];
    }
  }

  /** The two lists agree once filtered. */
  ghost predicate Alike(bs: seq<Binding>, bs': seq<Binding>, p: Binding -> bool) {
    Keep(bs, p) == Keep(bs', p)
  }

  /** Clause by clause, both ways hold the same safe bindings in the same order. */
  lemma {:induction false} SafeAlike(ix: GraphIndex, nodes: map<ObjectId, EncodedNode>, clauses: seq<Clause>,
                                     typed: NodePattern -> seq<ObjectId>,
                                     allowed: NodePattern -> Option<set<ObjectId>>, n: nat)
    requires GraphOf(ix, nodes) && n <= |clauses| && LaterSilent(clauses, allowed)
    ensures Alike(MatchClauses(ix, clauses, typed, n), MatchClauses(ix, clauses, Narrowed(typed, allowed), n),
                  Safe(clauses, typed, allowed, n))
    decreases n
  {
    var select := Narrowed(typed, allowed);
    if n == 0 {
      assert MatchClauses(ix, clauses, typed, n) == MatchClauses(ix, clauses, select, n) == [map[]];
    } else {
      var before, before' := MatchClauses(ix, clauses, typed, n - 1), MatchClauses(ix, clauses, select, n - 1);
      SafeAlike(ix, nodes, clauses, typed, allowed, n - 1);
      SafeStep(ix, nodes, clauses, typed, allowed, n, before, before');
      ClausesUnrolled(ix, clauses, typed, n);
      ClausesUnrolled(ix, clauses, select, n);
    }
  }

  lemma ClausesUnrolled(ix: GraphIndex, clauses: seq<Clause>, select: NodePattern -> seq<ObjectId>, n: nat)
    requires 0 < n <= |clauses|
    ensures MatchClauses(ix, clauses, select, n) ==
            ConcatMap(MatchClauses(ix, clauses, select, n - 1),
                      Matcher(ix, clauses[n - 1], AtStart(select, clauses[n - 1])))
  {
  }

  lemma SafeStep(ix: GraphIndex, nodes: map<ObjectId, EncodedNode>, clauses: seq<Clause>,
                 typed: NodePattern -> seq<ObjectId>,
                 allowed: NodePattern -> Option<set<ObjectId>>, n: nat, bs: seq<Binding>, bs': seq<Binding>)
    requires GraphOf(ix, nodes) && 0 < n <= |clauses| && LaterSilent(clauses, allowed)
    requires Alike(bs, bs', Safe(clauses, typed, allowed, n - 1))
    ensures Alike(ConcatMap(bs, Matcher(ix, clauses[n - 1], AtStart(typed, clauses[n - 1]))),
                  ConcatMap(bs', Matcher(ix, clauses[n - 1], AtStart(Narrowed(typed, allowed), clauses[n - 1]))),
                      Safe(clauses, typed, allowed, n))
  {
    var f, g := Matcher(ix, clauses[n - 1], AtStart(typed, clauses[n - 1])),
        Matcher(ix, clauses[n - 1], AtStart(Narrowed(typed, allowed), clauses[n - 1]));
    var p, q := Safe(clauses, typed, allowed, n - 1), Safe(clauses, typed, allowed, n);
    forall b, x | !p(b) && (x in f(b) || x in g(b)) ensures !q(x) {
      if x in f(b) {
        LostStaysLost(ix, nodes, clauses, typed, allowed, n, AtStart(typed, clauses[n - 1]), b, x);
      } else {
        LostStaysLost(ix, nodes, clauses, typed, allowed, n, AtStart(Narrowed(typed, allowed), clauses[n - 1]), b, x);
      }
    }
    DropBefore(bs, f, p, q);
    DropBefore(bs', g, p, q);
    forall b | b in Keep(bs, p) ensures Keep(f(b), q) == Keep(g(b), q) {
      KeepMember(bs, p, b);
      InputNarrowed(ix, nodes, clauses, typed, allowed, n, b);
    }
    SameKept(Keep(bs, p), f, g, q);
  }

  /**
   * Without optional patterns and under no other condition: planning fails exactly when some constant of the condition
   * does, and otherwise returns exactly the unplanned bindings whose starts the indexes allow, in the unplanned order.
   */
  lemma PlanningFilters(s: Search, clauses: seq<Clause>)
    requires GraphOf(s.ix, s.cx.nodes) && forall c | c in clauses :: !c.optional
    ensures TryClauses(clauses, Planning(s), |clauses|) ==
            if exists c | c in clauses :: PlanningFails(s, c.pattern.start) then None
            else Some(Keep(MatchAll(s, clauses), Safe(clauses, TypedCandidates(s.ix), AllowedBy(s), |clauses|)))
  {
    if c :| c in clauses && PlanningFails(s, c.pattern.start) {
      var i :| 0 <= i < |clauses| && clauses[i] == c;
      TriedFails(clauses, Planning(s), i, |clauses|);
    } else {
      PlannedMatches(s, clauses);
      MatchedFilters(s, clauses);
    }
  }

  lemma {:induction false} TriedFails(clauses: seq<Clause>, attempt: Clause -> Option<Binding -> seq<Binding>>, i: nat,
                                      n: nat)
    requires i < n <= |clauses| && attempt(clauses[i]).None?
    ensures TryClauses(clauses, attempt, n).None?
    decreases n
  {
    if i < n - 1 {
      TriedFails(clauses, attempt, i, n - 1);
    }
  }

  lemma MatchedFilters(s: Search, clauses: seq<Clause>)
    requires GraphOf(s.ix, s.cx.nodes) && forall c | c in clauses :: !c.optional
    ensures MatchPlanned(s, clauses) ==
            Keep(MatchAll(s, clauses), Safe(clauses, TypedCandidates(s.ix), AllowedBy(s), |clauses|))
  {
    var typed, allowed := TypedCandidates(s.ix), AllowedBy(s);
    assert Unfold(true);
    SafeAlike(s.ix, s.cx.nodes, clauses, typed, allowed, |clauses|);
    MatchExact(s.ix, s.cx.nodes, clauses, Narrowed(typed, allowed), |clauses|);
    forall x | x in MatchPlanned(s, clauses) ensures !Lost(clauses, typed, allowed, |clauses|, x) {
      AnswersNotLost(s.cx.nodes, clauses, typed, allowed, x);
    }
    KeepWhole(MatchPlanned(s, clauses), Safe(clauses, typed, allowed, |clauses|));
  }

  lemma AnswersNotLost(nodes: map<ObjectId, EncodedNode>, clauses: seq<Clause>, typed: NodePattern -> seq<ObjectId>,
                       allowed: NodePattern -> Option<set<ObjectId>>, x: Binding)
    requires forall c | c in clauses :: !c.optional
    requires Answers(nodes, clauses, Narrowed(typed, allowed), |clauses|, x)
    ensures !Lost(clauses, typed, allowed, |clauses|, x)
  {
    assert Unfold(true);
    forall i | 0 <= i < |clauses| ensures !LeftOut(clauses[i], AtStart(typed, clauses[i]), AtStart(allowed, clauses[i]),
                                                   x) &&
           !clauses[i].optional {
      assert clauses[i] in clauses;
      assert StartHolds(nodes, x, clauses[i].pattern.start, AtStart(Narrowed(typed, allowed), clauses[i]));
      RestrictedMember(AtStart(typed, clauses[i]), AtStart(allowed, clauses[i]), x[clauses[i].pattern.start.alias]);
    }
  }

  // From matching to rows.

  ghost function AcceptedBy(s: Search): Binding -> bool {
    (b: Binding) => Decided(s, b) == Some(true)
  }

  lemma {:induction false} FilteredKeeps(s: Search, bs: seq<Binding>)
    ensures Filtered(s, bs) == if forall b | b in bs :: Decided(s, b).Some? then Some(Keep(bs, AcceptedBy(s))) else None
    decreases |bs|
  {
    if bs != [] {
      FilteredKeeps(s, bs[..|bs| - 1]);
      assert bs == bs[..|bs| - 1] + [bs[|bs| - 1]];
    }
  }

  ghost predicate StartUsable(s: Search, start: NodePattern) {
    forall u {:trigger Unfold(u)} | Unfold(u) :: PropertiesUsable(s, start) && AdvancedUsable(s, start)
  }

  /** Every clause's selection is one the guards allow. */
  ghost predicate PlanUsable(s: Search, clauses: seq<Clause>) {
    forall c | c in clauses :: StartUsable(s, c.pattern.start)
  }

  /** Every expression in the condition always has a value. */
  predicate TotalExpression(e: Expression) {
    match e
    case Call(fn, args) =>
      (if fn.Coalesce? then |args| >= 1 else |args| == 1) && forall i | 0 <= i < |args| :: TotalExpression(args[i])
    case PathOf(_, _) => true
    case Constant(_) => true
    case _ => false
  }

  predicate TotalCondition(c: Condition) {
    match c
    case Test(p) => TotalExpression(p.left) && TotalExpression(p.right)
    case Not(n) => TotalCondition(n)
    case And(l, r) => TotalCondition(l) && TotalCondition(r)
    case Or(l, r) => TotalCondition(l) && TotalCondition(r)
  }

  lemma {:induction false} TotalHasValue(cx: Context, b: Binding, e: Expression)
    requires TotalExpression(e)
    ensures Evaluate(cx, b, e).Some?
    decreases e, 1
  {
    if e.Call? {
      TotalHaveValues(cx, b, e.args, e);
    }
  }

  lemma {:induction false} TotalHaveValues(cx: Context, b: Binding, es: seq<Expression>, owner: Expression)
    requires forall e | e in es :: e < owner && TotalExpression(e)
    ensures EvaluateAll(cx, b, es, owner).Some?
    decreases owner, 0, |es|
  {
    if es != [] {
      assert es[0] in es && forall e | e in es[1..] :: e in es;
      TotalHasValue(cx, b, es[0]);
      TotalHaveValues(cx, b, es[1..], owner);
    }
  }

  lemma {:induction false} TotalDecides(cx: Context, b: Binding, c: Condition)
    requires TotalCondition(c)
    ensures Decide(cx, b, c).Some?
  {
    match c
    case Test(p) =>
      TotalHasValue(cx, b, p.left);
      TotalHasValue(cx, b, p.right);
    case Not(n) => TotalDecides(cx, b, n);
    case And(l, r) => TotalDecides(cx, b, l); TotalDecides(cx, b, r);
    case Or(l, r) => TotalDecides(cx, b, l); TotalDecides(cx, b, r);
  }

  // Usable selections keep what WHERE accepts.

  lemma {:induction false} NotFullScanMember(ss: seq<Selection>, x: Selection)
    requires x in NotFullScan(ss)
    ensures x in ss
    decreases |ss|
  {
    if x in NotFullScan(ss[..|ss| - 1]) {
      NotFullScanMember(ss[..|ss| - 1], x);
    }
  }

  lemma AdvancedKeeps(s: Search, start: NodePattern, x: Selection, b: Binding)
    requires SearchReady(s) && AdvancedUsable(s, start) && x in AdvancedSelections(s, start)
    requires Fits(s.cx, start, b) && Decided(s, b) == Some(true)
    ensures Selected(start, x.ids, b)
  {
    var ps, ax := Flatten(s.where.value, AllOf).value, s.advanced.value;
    var equalities := Equalities(s.cx, start.alias, ps);
    SelectionsOffered(s, start, x);
    if d :| d in ax.definitions && SelectTuple(s.cx, ax, start.typeName, equalities, d) == Some(x) {
      TupleKeeps(s, start, d, b);
    } else {
      var p :| p in ps && OfferedFor(s.cx, ax, start, p, x);
      var d :| d in ax.definitions && SelectPredicate(s.cx, ax, start, p, d) == Some(x);
      ConjunctsHold(s.cx, b, s.where.value, p);
      PredicateKeeps(s, start, p, d, b);
    }
  }

  lemma PropertyKeeps(s: Search, start: NodePattern, x: Selection, b: Binding)
    requires SearchReady(s) && PropertiesUsable(s, start) && s.where.Some?
    requires var indexed := IndexableSetOf(s.cx, start.alias, s.where.value);
             indexed.Some? && indexed.value.mode.AllOf? && x in SelectItems(s, start.typeName, indexed.value.items)
    requires Fits(s.cx, start, b) && Decided(s, b) == Some(true)
    ensures Selected(start, x.ids, b)
  {
    var items := IndexableSetOf(s.cx, start.alias, s.where.value).value.items;
    var i :| 0 <= i < |items| && SelectItem(s, start.typeName, items[i]) == x;
    var ps := Flatten(s.where.value, AllOf).value;
    ItemsServed(s.cx, start.alias, ps);
    var p :| p in ps && IndexableItem(s.cx, start.alias, p) == Some(items[i]);
    ConjunctsHold(s.cx, b, s.where.value, p);
    ItemKeeps(s, start, p, items[i], b);
  }

  lemma AnyPropertyKeeps(s: Search, start: NodePattern, b: Binding)
    requires SearchReady(s) && PropertiesUsable(s, start) && s.where.Some?
    requires var indexed := IndexableSetOf(s.cx, start.alias, s.where.value); indexed.Some? && indexed.value.mode.AnyOf?
    requires Fits(s.cx, start, b) && Decided(s, b) == Some(true)
    ensures Selected(start, Union(SelectItems(s, start.typeName,
                                              IndexableSetOf(s.cx, start.alias, s.where.value).value.items)), b)
  {
    var ps := Flatten(s.where.value, AnyOf).value;
    var items := IndexableSetOf(s.cx, start.alias, s.where.value).value.items;
    var p := DisjunctHolds(s.cx, b, s.where.value);
    ItemsServed(s.cx, start.alias, ps);
    var item := IndexableItem(s.cx, start.alias, p).value;
    ItemKeeps(s, start, p, item, b);
    var i :| 0 <= i < |items| && items[i] == item;
    var selections := SelectItems(s, start.typeName, items);
    assert selections[i] in selections;
  }

  /** What the planner allows contains every start WHERE accepts; an unbound start is never accepted. */
  lemma AllowedKeeps(s: Search, start: NodePattern)
    requires SearchReady(s) && PropertiesUsable(s, start) && AdvancedUsable(s, start) && Allowed(s, start).Some?
    ensures Keeps(s.cx, start, s.where.value, Allowed(s, start).value)
  {
    var indexed, advanced := IndexableSetOf(s.cx, start.alias, s.where.value), AdvancedSelections(s, start);
    var properties := if indexed.Some? then SelectItems(s, start.typeName, indexed.value.items) else [];
    forall b: Binding | Fits(s.cx, start, b) && Decide(s.cx, b, s.where.value) == Some(true)
      ensures Selected(start, Allowed(s, start).value, b)
    {
      if advanced == [] && indexed.value.mode.AnyOf? {
        AnyPropertyKeeps(s, start, b);
      } else {
        var ss := if advanced != [] then advanced + NotFullScan(properties) else properties;
        forall x | x in ss ensures Selected(start, x.ids, b) {
          if x in advanced {
            AdvancedKeeps(s, start, x, b);
          } else {
            if advanced != [] {
              NotFullScanMember(properties, x);
            }
            PropertyKeeps(s, start, x, b);
          }
        }
        assert ss[0] in ss;
      }
    }
  }

  lemma TypeCandidateFits(s: Search, start: NodePattern, b: Binding)
    requires SearchReady(s) && start.alias in b && b[start.alias] in TypeCandidates(s.ix, start.typeName)
    ensures Fits(s.cx, start, b)
  {
  }

  /** What the planner allows for the start, if anything, contains every start WHERE accepts. */
  ghost predicate StartKept(s: Search, start: NodePattern) {
    forall u {:trigger Unfold(u)} | Unfold(u) ::
      s.where.Some? && Allowed(s, start).Some? ==> Keeps(s.cx, start, s.where.value, Allowed(s, start).value)
  }

  ghost predicate PlanKept(s: Search, clauses: seq<Clause>) {
    forall c | c in clauses :: StartKept(s, c.pattern.start)
  }

  lemma UsableIsKept(s: Search, clauses: seq<Clause>)
    requires SearchReady(s) && PlanUsable(s, clauses)
    ensures PlanKept(s, clauses)
  {
    assert Unfold(true);
    forall c | c in clauses ensures StartKept(s, c.pattern.start) {
      if s.where.Some? && Allowed(s, c.pattern.start).Some? {
        AllowedKeeps(s, c.pattern.start);
      }
    }
  }

  /** A start that was left out, or stayed unbound, is not accepted. */
  lemma NotKeptIsRejected(s: Search, c: Clause, b: Binding)
    requires SearchReady(s) && StartKept(s, c.pattern.start)
    requires LeftOut(c, TypeCandidates(s.ix, c.pattern.start.typeName), Allowed(s, c.pattern.start), b) ||
             StayedUnbound(c, Allowed(s, c.pattern.start), b)
    ensures Decided(s, b) != Some(true)
  {
    var start := c.pattern.start;
    assert Unfold(true);
    if start.alias in b {
      TypeCandidateFits(s, start, b);
    }
    assert Fits(s.cx, start, b) && !Selected(start, Allowed(s, start).value, b);
  }

  /** A lost binding is never accepted. */
  lemma LostIsRejected(s: Search, clauses: seq<Clause>, b: Binding)
    requires SearchReady(s) && PlanKept(s, clauses)
    requires Lost(clauses, TypedCandidates(s.ix), AllowedBy(s), |clauses|, b)
    ensures Decided(s, b) != Some(true)
  {
    assert Unfold(true);
    var typed, allowed := TypedCandidates(s.ix), AllowedBy(s);
    if i :| 0 <= i < |clauses| && LeftOut(clauses[i], AtStart(typed, clauses[i]), AtStart(allowed, clauses[i]), b) {
      NotKeptIsRejected(s, clauses[i], b);
    } else {
      var i :| 0 <= i < |clauses| && StayedUnbound(clauses[i], AtStart(allowed, clauses[i]), b);
      NotKeptIsRejected(s, clauses[i], b);
    }
  }

  lemma PlannedMatches(s: Search, clauses: seq<Clause>)
    requires forall c | c in clauses :: !PlanningFails(s, c.pattern.start)
    ensures TryClauses(clauses, Planning(s), |clauses|) == Some(MatchPlanned(s, clauses))
  {
    forall c | c in clauses ensures Planning(s)(c) == Some(Matching(s.ix, PlannedCandidates(s))(c)) {
      assert AtStart(PlannedCandidates(s), c) == CandidatesOf(s, c.pattern.start);
    }
    TriedSucceeds(clauses, Planning(s), Matching(s.ix, PlannedCandidates(s)), |clauses|);
  }

  lemma PlannedRows(s: Search, clauses: seq<Clause>)
    requires forall c | c in clauses :: !PlanningFails(s, c.pattern.start)
    ensures RunPlanned(s, clauses) == Filtered(s, MatchPlanned(s, clauses))
  {
    PlannedMatches(s, clauses);
  }

  /** No clause is optional, or no later clause mentions the start of a narrowed optional one and WHERE cannot fail. */
  ghost predicate OptionalsInOrder(s: Search, clauses: seq<Clause>) {
    || (forall c | c in clauses :: !c.optional)
    || (LaterSilent(clauses, AllowedBy(s)) && (s.where.Some? ==> TotalCondition(s.where.value)))
  }

  /**
   * Planning keeps the rows when it keeps the starts: whenever matching from all candidates and then applying WHERE
   * succeeds, so does matching from the planned candidates, with the same rows in the same order.
   */
  lemma KeptStartsKeepRows(s: Search, clauses: seq<Clause>)
    requires SearchReady(s) && GraphOf(s.ix, s.cx.nodes) && PlanKept(s, clauses) && OptionalsInOrder(s, clauses)
    requires RunAll(s, clauses).Some? && forall c | c in clauses :: !PlanningFails(s, c.pattern.start)
    ensures RunPlanned(s, clauses) == RunAll(s, clauses)
  {
    var typed, allowed := TypedCandidates(s.ix), AllowedBy(s);
    var all, planned := MatchAll(s, clauses), MatchPlanned(s, clauses);
    var safe, accepted := Safe(clauses, typed, allowed, |clauses|), AcceptedBy(s);
    assert LaterSilent(clauses, allowed) by {
      forall i | 0 <= i < |clauses| && (forall c | c in clauses :: !c.optional) ensures !clauses[i].optional {
        assert clauses[i] in clauses;
      }
    }
    PlannedRows(s, clauses);
    SafeAlike(s.ix, s.cx.nodes, clauses, typed, allowed, |clauses|);
    FilteredKeeps(s, all);
    FilteredKeeps(s, planned);
    forall b | b in planned ensures Decided(s, b).Some? {
      if forall c | c in clauses :: !c.optional {
        MatchedFilters(s, clauses);
        KeepMember(all, safe, b);
      } else if s.where.Some? {
        TotalDecides(s.cx, b, s.where.value);
      }
    }
    forall b | accepted(b) ensures safe(b) {
      if !safe(b) {
        LostIsRejected(s, clauses, b);
      }
    }
    KeepKeep(all, safe, accepted);
    KeepKeep(planned, safe, accepted);
  }

  /** All guards of planner equality. */
  ghost predicate RowsGuarded(s: Search, clauses: seq<Clause>) {
    && PlanUsable(s, clauses) && OptionalsInOrder(s, clauses)
    && RunAll(s, clauses).Some? && forall c | c in clauses :: !PlanningFails(s, c.pattern.start)
  }

  /** Planning keeps the rows, in their order. */
  lemma PlanKeepsRows(s: Search, clauses: seq<Clause>)
    requires SearchReady(s) && GraphOf(s.ix, s.cx.nodes) && RowsGuarded(s, clauses)
    ensures RunPlanned(s, clauses) == RunAll(s, clauses)
  {
    UsableIsKept(s, clauses);
    KeptStartsKeepRows(s, clauses);
  }

  // From an envelope to its rows.

  /**
   * The search over the indexes built for an envelope and its definitions; without definitions there is no advanced
   * index.
   */
  ghost predicate BuiltFor(s: Search, e: Envelope, order: seq<ObjectId>, mode: PropertyMode,
                           definitions: seq<Definition>) {
    && s.cx.nodes == e.nodes && s.cx.indexed == e.nodes
    && IndexOf(s.ix, e, order, mode, StableKeys(s.cx.runtime))
    && (s.advanced.Some? <==> definitions != [])
    && (s.advanced.Some? ==>
         && s.advanced.value.definitions == definitions
         && AdvancedOf(s.advanced.value, s.cx.runtime, e.nodes, Pairs(order, definitions)))
  }

  /** Built indexes are what planning relies on. */
  lemma BuiltIsReady(s: Search, e: Envelope, order: seq<ObjectId>, mode: PropertyMode, definitions: seq<Definition>)
    requires HostLanguage(s.cx.runtime) && BuiltFor(s, e, order, mode, definitions)
    ensures SearchReady(s) && GraphOf(s.ix, s.cx.nodes)
  {
    BuiltIndexIsFaithful(s.ix, e, order, mode, s.cx.runtime);
    IndexIsGraph(s.ix, e, order, mode, StableKeys(s.cx.runtime));
  }

  /**
   * Builds the indexes of an envelope and runs a statement over them. There are no indexes exactly when two nodes claim
   * one unique key; under the guards the rows are those of matching from all candidates.
   */
  method BuildAndExecute(e: Envelope, order: seq<ObjectId>, mode: PropertyMode, definitions: seq<Definition>,
                         rt: Runtime,
                         parameters: map<string, JsValue>, where: Option<Condition>, clauses: seq<Clause>)
    returns (built: Option<Search>, rows: Option<seq<Binding>>)
    requires HostLanguage(rt) && forall id :: id in order <==> id in e.nodes
    ensures built.None? <==> definitions != [] && Conflict(rt, e.nodes, Pairs(order, definitions))
    ensures built.None? ==> rows.None?
    ensures built.Some? ==>
              && built.value.cx.runtime == rt && built.value.cx.parameters == parameters && built.value.where == where
              && BuiltFor(built.value, e, order, mode, definitions)
              && rows == RunPlanned(built.value, clauses)
              && (RowsGuarded(built.value, clauses) ==> rows == RunAll(built.value, clauses))
  {
    var ix := BuildGraphIndex(e, order, mode, StableKeys(rt));
    var advanced: Option<AdvancedIndex> := None;
    if definitions != [] {
      advanced := BuildAdvancedIndex(e, order, rt, definitions);
      if advanced.None? {
        return None, None;
      }
      NoConflict(advanced.value, rt, e.nodes, Pairs(order, definitions));
    }
    var s := Search(Context(e.nodes, e.nodes, parameters, rt), ix, advanced, where);
    BuiltIsReady(s, e, order, mode, definitions);
    rows := Execute(s, clauses);
    if RowsGuarded(s, clauses) {
      PlanKeepsRows(s, clauses);
    }
    built := Some(s);
  }
}
