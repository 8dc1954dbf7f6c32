/** What WHERE means: the rows of compound conditions, operators and conditional values. */
module GvqlWhereLaws {
  // Planning is compared with not planning elsewhere, and both evaluate conditions alike. Here the evaluation itself is
  // held against what its words mean, between the rows of whole statements where it can be.

  import opened EncodedGraph
  import opened GvqlValues
  import opened GvqlExpressions
  import opened GvqlMatcher
  import opened GvqlPlanner
  import opened GvqlPlanEquivalence
  import opened Enumerations

  function Where(s: Search, c: Condition): Search {
    s.(where := Some(c))
  }

  /** `SELECT` of the rows by a test on them. */
  function Listed(rows: seq<Binding>): Binding -> bool {
    (b: Binding) => b in rows
  }

  function Without(rows: seq<Binding>): Binding -> bool {
    (b: Binding) => b !in rows
  }

  function InBoth(one: seq<Binding>, other: seq<Binding>): Binding -> bool {
    (b: Binding) => b in one && b in other
  }

  function InEither(one: seq<Binding>, other: seq<Binding>): Binding -> bool {
    (b: Binding) => b in one || b in other
  }

  /** WHERE keeps exactly the rows it accepts, each as often as it was matched and in matching order. */
  lemma {:induction false} FilteredOnce(s: Search, bs: seq<Binding>)
    requires Filtered(s, bs).Some?
    ensures Selects(bs, AcceptedBy(s), Itself(), Filtered(s, bs).value)
    decreases |bs|
  {
    var keep, make := AcceptedBy(s), Itself<Binding>();
    if bs == [] {
      SelectsNone(keep, make);
    } else {
      var front, last := bs[..|bs| - 1], bs[|bs| - 1];
      FilteredOnce(s, front);
      var before := Filtered(s, front).value;
      SelectsNext(front, keep, make, before, last);
      SameSelects(front + [last], keep, make, before + if keep(last) then [make(last)] else [], bs,
                  Filtered(s, bs).value);
    }
  }

  /** Tests that agree on the elements select alike. */
  lemma SelectsAlike(bs: seq<Binding>, keep: Binding -> bool, keep': Binding -> bool, rows: seq<Binding>)
    requires Selects(bs, keep, Itself(), rows) && forall b | b in bs :: keep(b) == keep'(b)
    ensures Selects(bs, keep', Itself(), rows)
  {
    var at := PositionsOf(bs, keep, Itself(), rows);
    assert SelectsAt(bs, keep', Itself(), rows, at);
  }

  /** A row is in the result exactly when it was matched and WHERE accepts it. */
  lemma RowAccepted(s: Search, clauses: seq<Clause>, b: Binding)
    requires RunAll(s, clauses).Some? && b in MatchAll(s, clauses)
    ensures b in RunAll(s, clauses).value <==> Decided(s, b) == Some(true)
    ensures Decided(s, b).Some?
  {
    var all := MatchAll(s, clauses);
    FilteredKeeps(s, all);
    KeepMember(all, AcceptedBy(s), b);
  }

  /** Without WHERE every matched row is a row. */
  lemma AllRows(s: Search, clauses: seq<Clause>)
    requires s.where.None?
    ensures RunAll(s, clauses) == Some(MatchAll(s, clauses))
  {
    EveryRow(s, MatchAll(s, clauses));
  }

  lemma {:induction false} EveryRow(s: Search, bs: seq<Binding>)
    requires s.where.None?
    ensures Filtered(s, bs) == Some(bs)
    decreases |bs|
  {
    if bs != [] {
      EveryRow(s, bs[..|bs| - 1]);
      assert bs[..|bs| - 1] + [bs[|bs| - 1]] == bs;
    }
  }

  /** The rows of `WHERE NOT c` are the rows that `WHERE c` leaves out, in order, and both fail together. */
  lemma NotRows(s: Search, clauses: seq<Clause>, c: Condition)
    ensures RunAll(Where(s, c), clauses).Some? <==> RunAll(Where(s, Not(c)), clauses).Some?
    ensures RunAll(Where(s, c), clauses).Some? ==>
              var rows, others := RunAll(Where(s, c), clauses).value, RunAll(Where(s, Not(c)), clauses).value;
              && Selects(MatchAll(s, clauses), Listed(rows), Itself(), rows)
              && Selects(MatchAll(s, clauses), Without(rows), Itself(), others)
  {
    var all, yes, no := MatchAll(s, clauses), Where(s, c), Where(s, Not(c));
    assert MatchAll(yes, clauses) == all && MatchAll(no, clauses) == all;
    FilteredKeeps(yes, all);
    FilteredKeeps(no, all);
    forall b ensures Decided(no, b) == if Decided(yes, b).None? then None else Some(!Decided(yes, b).value) {
    }
    if RunAll(yes, clauses).Some? {
      var rows := RunAll(yes, clauses).value;
      forall b | b in all ensures AcceptedBy(yes)(b) == (b in rows) && AcceptedBy(no)(b) == (b !in rows) {
        RowAccepted(yes, clauses, b);
      }
      FilteredOnce(yes, all);
      FilteredOnce(no, all);
      SelectsAlike(all, AcceptedBy(yes), Listed(rows), rows);
      SelectsAlike(all, AcceptedBy(no), Without(rows), RunAll(no, clauses).value);
    }
  }

  lemma {:induction false} KeepIsFilter(bs: seq<Binding>, p: Binding -> bool)
    ensures Keep(bs, p) == Filter(bs, p)
    decreases |bs|
  {
    if bs != [] {
      KeepIsFilter(bs[..|bs| - 1], p);
    }
  }

  /** Together they are all rows, each as often as it was matched. */
  lemma NotSplits(s: Search, clauses: seq<Clause>, c: Condition)
    requires RunAll(Where(s, c), clauses).Some?
    ensures RunAll(Where(s, Not(c)), clauses).Some?
    ensures multiset(RunAll(Where(s, c), clauses).value) + multiset(RunAll(Where(s, Not(c)), clauses).value) ==
            multiset(MatchAll(s, clauses))
  {
    var all, yes, no := MatchAll(s, clauses), Where(s, c), Where(s, Not(c));
    NotRows(s, clauses, c);
    assert MatchAll(yes, clauses) == all && MatchAll(no, clauses) == all;
    FilteredKeeps(yes, all);
    FilteredKeeps(no, all);
    KeepIsFilter(all, AcceptedBy(yes));
    KeepIsFilter(all, AcceptedBy(no));
    FilterSplits(all, AcceptedBy(yes), AcceptedBy(no));
  }

  /** How one row decides: the second operand is asked only where the first leaves it open. */
  lemma Connectives(s: Search, c: Condition, d: Condition, b: Binding)
    ensures var one, other := Decided(Where(s, c), b), Decided(Where(s, d), b);
            && Decided(Where(s, Not(c)), b) == (if one.None? then None else Some(!one.value))
            && Decided(Where(s, And(c, d)), b) == (if one == Some(true) then other else one)
            && Decided(Where(s, Or(c, d)), b) == (if one == Some(false) then other else one)
  {
    assert Decide(s.cx, b, And(c, d)) == if Decide(s.cx, b, c) == Some(true) then Decide(s.cx, b, d)
           else Decide(s.cx, b, c);
    assert Decide(s.cx, b, Or(c, d)) == if Decide(s.cx, b, c) == Some(false) then Decide(s.cx, b, d)
           else Decide(s.cx, b, c);
  }

  lemma FilteredLast(s: Search, bs: seq<Binding>, b: Binding)
    ensures Filtered(s, bs + [b]) ==
            if Filtered(s, bs).None? || Decided(s, b).None? then None
            else Some(Filtered(s, bs).value + if Decided(s, b) == Some(true) then [b] else [])
  {
    assert (bs + [b])[..|bs|] == bs;
  }

  /** `c AND d` applies `d` to the rows of `c`, its errors included. */
  lemma {:induction false} AndNests(s: Search, c: Condition, d: Condition, bs: seq<Binding>)
    ensures Filtered(Where(s, And(c, d)), bs) ==
            if Filtered(Where(s, c), bs).None? then None else Filtered(Where(s, d), Filtered(Where(s, c), bs).value)
    decreases |bs|
  {
    if bs != [] {
      var front, last := bs[..|bs| - 1], bs[|bs| - 1];
      AndNests(s, c, d, front);
      Connectives(s, c, d, last);
      assert front + [last] == bs;
      FilteredLast(Where(s, c), front, last);
      FilteredLast(Where(s, And(c, d)), front, last);
      var kept := Filtered(Where(s, c), front);
      if kept.Some? {
        FilteredLast(Where(s, d), kept.value, last);
        assert kept.value + [] == kept.value;
        assert Filtered(Where(s, d), kept.value).Some? ==>
            Filtered(Where(s, d), kept.value).value + [] == Filtered(Where(s, d), kept.value).value;
      }
    }
  }

  lemma AndRows(s: Search, clauses: seq<Clause>, c: Condition, d: Condition)
    ensures RunAll(Where(s, And(c, d)), clauses) ==
            if RunAll(Where(s, c), clauses).None? then None
            else Filtered(Where(s, d), RunAll(Where(s, c), clauses).value)
  {
    var all := MatchAll(s, clauses);
    assert MatchAll(Where(s, And(c, d)), clauses) == all && MatchAll(Where(s, c), clauses) == all;
    AndNests(s, c, d, all);
  }

  lemma RowOfBoth(s: Search, clauses: seq<Clause>, c: Condition, d: Condition, b: Binding)
    requires RunAll(Where(s, c), clauses).Some? && RunAll(Where(s, d), clauses).Some? && b in MatchAll(s, clauses)
    ensures var one, other := RunAll(Where(s, c), clauses).value, RunAll(Where(s, d), clauses).value;
            && Decided(Where(s, And(c, d)), b) == Some(b in one && b in other)
            && Decided(Where(s, Or(c, d)), b) == Some(b in one || b in other)
  {
    assert MatchAll(Where(s, c), clauses) == MatchAll(s, clauses) == MatchAll(Where(s, d), clauses);
    RowAccepted(Where(s, c), clauses, b);
    RowAccepted(Where(s, d), clauses, b);
    Connectives(s, c, d, b);
    assert Decided(Where(s, c), b).value == (b in RunAll(Where(s, c), clauses).value);
    assert Decided(Where(s, d), b).value == (b in RunAll(Where(s, d), clauses).value);
  }

  /** Where both operands evaluate, the rows of AND are those of both and the rows of OR those of either, in order. */
  lemma BothRows(s: Search, clauses: seq<Clause>, c: Condition, d: Condition)
    requires RunAll(Where(s, c), clauses).Some? && RunAll(Where(s, d), clauses).Some?
    ensures RunAll(Where(s, And(c, d)), clauses).Some? && RunAll(Where(s, Or(c, d)), clauses).Some?
    ensures var one, other := RunAll(Where(s, c), clauses).value, RunAll(Where(s, d), clauses).value;
            && Selects(MatchAll(s, clauses), InBoth(one, other), Itself(), RunAll(Where(s, And(c, d)), clauses).value)
            && Selects(MatchAll(s, clauses), InEither(one, other), Itself(), RunAll(Where(s, Or(c, d)), clauses).value)
  {
    var all, both, either := MatchAll(s, clauses), Where(s, And(c, d)), Where(s, Or(c, d));
    assert MatchAll(Where(s, c), clauses) == all && MatchAll(Where(s, d), clauses) == all;
    assert MatchAll(both, clauses) == all && MatchAll(either, clauses) == all;
    var one, other := RunAll(Where(s, c), clauses).value, RunAll(Where(s, d), clauses).value;
    forall b | b in all
      ensures Decided(both, b) == Some(b in one && b in other) && Decided(either, b) == Some(b in one || b in other) {
      RowOfBoth(s, clauses, c, d, b);
    }
    FilteredKeeps(both, all);
    FilteredKeeps(either, all);
    FilteredOnce(both, all);
    FilteredOnce(either, all);
    SelectsAlike(all, AcceptedBy(both), InBoth(one, other), RunAll(both, clauses).value);
    SelectsAlike(all, AcceptedBy(either), InEither(one, other), RunAll(either, clauses).value);
  }

  lemma {:induction false} FilteredAlike(s: Search, c: Condition, d: Condition, bs: seq<Binding>)
    requires forall b | b in bs :: Decided(Where(s, c), b) == Decided(Where(s, d), b)
    ensures Filtered(Where(s, c), bs) == Filtered(Where(s, d), bs)
    decreases |bs|
  {
    if bs != [] {
      assert bs[|bs| - 1] in bs;
      FilteredAlike(s, c, d, bs[..|bs| - 1]);
    }
  }

  lemma Negations(s: Search, c: Condition, d: Condition, b: Binding)
    ensures Decided(Where(s, Not(And(c, d))), b) == Decided(Where(s, Or(Not(c), Not(d))), b)
    ensures Decided(Where(s, Not(Or(c, d))), b) == Decided(Where(s, And(Not(c), Not(d))), b)
    ensures Decided(Where(s, Not(Not(c))), b) == Decided(Where(s, c), b)
  {
    Connectives(s, c, d, b);
    Connectives(s, d, c, b);
    Connectives(s, Not(c), Not(d), b);
    Connectives(s, And(c, d), d, b);
    Connectives(s, Or(c, d), d, b);
  }

  /** De Morgan between statements, and double negation, errors included. */
  lemma DeMorgan(s: Search, clauses: seq<Clause>, c: Condition, d: Condition)
    ensures RunAll(Where(s, Not(And(c, d))), clauses) == RunAll(Where(s, Or(Not(c), Not(d))), clauses)
    ensures RunAll(Where(s, Not(Or(c, d))), clauses) == RunAll(Where(s, And(Not(c), Not(d))), clauses)
    ensures RunAll(Where(s, Not(Not(c))), clauses) == RunAll(Where(s, c), clauses)
  {
    var all := MatchAll(s, clauses);
    assert forall x :: MatchAll(Where(s, x), clauses) == all;
    forall b | b in all
      ensures Decided(Where(s, Not(And(c, d))), b) == Decided(Where(s, Or(Not(c), Not(d))), b)
      ensures Decided(Where(s, Not(Or(c, d))), b) == Decided(Where(s, And(Not(c), Not(d))), b)
      ensures Decided(Where(s, Not(Not(c))), b) == Decided(Where(s, c), b)
    {
      Negations(s, c, d, b);
    }
    FilteredAlike(s, Not(And(c, d)), Or(Not(c), Not(d)), all);
    FilteredAlike(s, Not(Or(c, d)), And(Not(c), Not(d)), all);
    FilteredAlike(s, Not(Not(c)), c, all);
  }

  // Operators.

  /** Numbers compare as numbers and are calculated with exactly. */
  ghost predicate ExactNumbers(rt: Runtime) {
    && (forall a: real, b: real :: rt.compareNumbers(JsNumber(a), JsNumber(b)) ==
                                   Some(if a < b then -1 else if a == b then 0 else 1))
    && (forall op, a: real, b: real | op != Divide || b != 0.0 ::
          rt.arithmetic(op, JsNumber(a), JsNumber(b)) == JsNumber(Calculated(op, a, b)))
  }

  function Calculated(op: Arithmetic, a: real, b: real): real
    requires op.Divide? ==> b != 0.0
  {
    match op
    case Plus => a + b
    case Minus => a - b
    case Times => a * b
    case Divide => a / b
  }

  lemma NumbersCompare(cx: Context, a: real, b: real)
    requires ExactNumbers(cx.runtime)
    ensures Holds(cx, JsNumber(a), Less, JsNumber(b)) <==> a < b
    ensures Holds(cx, JsNumber(a), LessEqual, JsNumber(b)) <==> a <= b
    ensures Holds(cx, JsNumber(a), Greater, JsNumber(b)) <==> a > b
    ensures Holds(cx, JsNumber(a), GreaterEqual, JsNumber(b)) <==> a >= b
    ensures Holds(cx, JsNumber(a), Equal, JsNumber(b)) <==> a == b
  {
    assert Compare(cx, JsNumber(a), JsNumber(b)) == Some(if a < b then -1 else if a == b then 0 else 1);
  }

  /** Other values compare by their texts, nullish ones as the empty text. */
  lemma TextsCompare(cx: Context, a: JsValue, b: JsValue)
    requires !(IsNumber(a) && IsNumber(b))
    ensures var order := cx.runtime.compareText(if a.JsUndefined? || a.JsNull? then "" else cx.runtime.text(a),
                                                if b.JsUndefined? || b.JsNull? then "" else cx.runtime.text(b));
            && (Holds(cx, a, Less, b) <==> order < 0) && (Holds(cx, a, LessEqual, b) <==> order <= 0)
            && (Holds(cx, a, Greater, b) <==> order > 0) && (Holds(cx, a, GreaterEqual, b) <==> order >= 0)
  {
  }

  /** Values that do not compare, as NaN with any number, are on no side of each other, nor on both at once. */
  lemma NoOrder(cx: Context, a: JsValue, b: JsValue)
    requires IsNumber(a) && IsNumber(b) && cx.runtime.compareNumbers(a, b).None?
    ensures !Holds(cx, a, Less, b) && !Holds(cx, a, LessEqual, b)
    ensures !Holds(cx, a, Greater, b) && !Holds(cx, a, GreaterEqual, b)
  {
  }

  /** The text operators on two texts, said by what stands before and after. */
  lemma PrefixMeans(cx: Context, a: string, b: string)
    requires cx.runtime.text(JsString(a)) == a && cx.runtime.text(JsString(b)) == b
    ensures Holds(cx, JsString(a), StartsWith, JsString(b)) <==> exists rest :: a == b + rest
  {
    if HasPrefix(a, b) {
      assert a == b + a[|b|..];
    }
  }

  lemma SuffixMeans(cx: Context, a: string, b: string)
    requires cx.runtime.text(JsString(a)) == a && cx.runtime.text(JsString(b)) == b
    ensures Holds(cx, JsString(a), EndsWith, JsString(b)) <==> exists rest :: a == rest + b
  {
    if HasSuffix(a, b) {
      assert a == a[..|a| - |b|] + b;
    }
  }

  lemma ContainsMeans(cx: Context, a: string, b: string)
    requires cx.runtime.text(JsString(a)) == a && cx.runtime.text(JsString(b)) == b
    ensures Holds(cx, JsString(a), Contains, JsString(b)) <==> exists before, rest :: a == before + b + rest
  {
    if i :| 0 <= i <= |a| && OccursAt(a, b, i) {
      assert a == a[..i] + b + a[i + |b|..];
    }
    if before, rest :| a == before + b + rest {
      assert OccursAt(a, b, |before|);
    }
  }

  /** The tests for a missing value, and what negates what. */
  lemma MissingValues(cx: Context, a: JsValue, b: JsValue)
    ensures Holds(cx, a, NotEqual, b) <==> !Holds(cx, a, Equal, b)
    ensures Holds(cx, a, IsNull, b) <==> a == JsNull || a == JsUndefined
    ensures Holds(cx, a, IsNotNull, b) <==> a != JsNull && a != JsUndefined
  {
  }

  /** Texts, truth values, big integers and missing values are equal to themselves only, zero also to negative zero. */
  lemma SameValues(cx: Context, a: JsValue, b: JsValue)
    ensures a.JsString? || a.JsBoolean? || a.JsNull? || a.JsUndefined? || a.JsBigInt? ==>
              (Holds(cx, a, Equal, b) <==> a == b)
    ensures Holds(cx, JsSpecial(NegativeZero), Equal, JsNumber(0.0))
  {
  }

  /** NaN and anything read as an object afresh are equal to nothing. */
  lemma NothingEqual(cx: Context, a: JsValue, b: JsValue)
    requires a == JsSpecial(NotANumber) || a.JsReference? || a.JsArray? || a.JsSummary?
    ensures !Holds(cx, a, Equal, b) && !Holds(cx, b, Equal, a)
  {
  }

  /** IN looks for an equal element; there NaN is equal to itself. */
  lemma MembersEqual(cx: Context, a: JsValue, b: JsValue)
    ensures Holds(cx, a, In, b) <==> b.JsArray? && exists i | 0 <= i < |b.items| :: EqualOrNaNs(cx, a, b.items[i])
  {
    if b.JsArray? {
      forall i | 0 <= i < |b.items| ensures SameValueZero(b.items[i], a) <==> EqualOrNaNs(cx, a, b.items[i]) {
        ElementEqual(cx, a, b.items[i]);
      }
    }
  }

  lemma ElementEqual(cx: Context, a: JsValue, b: JsValue)
    ensures SameValueZero(b, a) <==> EqualOrNaNs(cx, a, b)
  {
  }

  /** The equality of IN, where NaN is equal to itself. */
  predicate EqualOrNaNs(cx: Context, a: JsValue, b: JsValue) {
    Holds(cx, a, Equal, b) || (a == JsSpecial(NotANumber) && b == JsSpecial(NotANumber))
  }

  // Values.

  /** Arithmetic on numbers: the left operand first. */
  lemma Calculates(cx: Context, row: Binding, op: Arithmetic, l: Expression, r: Expression, a: real, b: real)
    requires ExactNumbers(cx.runtime) && (op.Divide? ==> b != 0.0)
    requires Evaluate(cx, row, l) == Some(JsNumber(a)) && Evaluate(cx, row, r) == Some(JsNumber(b))
    ensures Evaluate(cx, row, Binary(op, l, r)) == Some(JsNumber(Calculated(op, a, b)))
  {
  }

  predicate NoNumber(v: Option<JsValue>) {
    v.Some? && !v.value.JsNumber? && !v.value.JsSpecial?
  }

  /** Calculating with anything but numbers is an error, as is a wrong number of arguments. */
  lemma EvaluationFails(cx: Context, row: Binding, op: Arithmetic, l: Expression, r: Expression, fn: ScalarFunction,
                        args: seq<Expression>)
    ensures NoNumber(Evaluate(cx, row, l)) || NoNumber(Evaluate(cx, row, r)) ==>
              Evaluate(cx, row, Binary(op, l, r)) == None
    ensures fn != Coalesce && |args| != 1 ==> Evaluate(cx, row, Call(fn, args)) == None
    ensures args == [] ==> Evaluate(cx, row, Call(fn, args)) == None
  {
  }

  /** A list literal is the list of its elements, in order; a parameter that is not given is undefined. */
  lemma LiteralValues(cx: Context, row: Binding, elements: seq<Literal>, name: string)
    ensures var list := Evaluate(cx, row, Constant(ListOf(elements)));
            && list.Some? && list.value.JsArray? && |list.value.items| == |elements|
            && forall i | 0 <= i < |elements| :: Some(list.value.items[i]) == Evaluate(cx, row, Constant(elements[i]))
    ensures Evaluate(cx, row, Constant(Parameter(name))) ==
            Some(if name in cx.parameters then cx.parameters[name] else JsUndefined)
  {
  }

  /** An alias by itself is null exactly in the rows that do not bind it to a node: those an OPTIONAL MATCH kept. */
  lemma AliasIsNull(cx: Context, row: Binding, alias: string, unused: Expression)
    requires Evaluate(cx, row, unused).Some?
    ensures DecidePredicate(cx, row, Predicate(PathOf(alias, None), IsNull, unused)) ==
            Some(alias !in row || row[alias] !in cx.nodes)
  {
  }

  /** `coalesce` gives the first argument that is not null or undefined, and undefined if there is none. */
  lemma {:induction false} Coalesces(vs: seq<JsValue>)
    ensures (exists i | 0 <= i < |vs| ::
               vs[i] == FirstPresent(vs) && !IsNullish(vs[i]) && forall j | 0 <= j < i :: IsNullish(vs[j])) ||
            (FirstPresent(vs) == JsUndefined && forall j | 0 <= j < |vs| :: IsNullish(vs[j]))
    decreases |vs|
  {
    if vs != [] {
      if IsNullish(vs[0]) {
        Coalesces(vs[1..]);
        if i :| 0 <= i < |vs| - 1 && vs[1..][i] == FirstPresent(vs[1..]) && !IsNullish(vs[1..][i]) &&
                forall j | 0 <= j < i :: IsNullish(vs[1..][j]) {
          assert vs[i + 1] == FirstPresent(vs) && !IsNullish(vs[i + 1]);
          forall j | 0 <= j < i + 1 ensures IsNullish(vs[j]) {
            assert j > 0 ==> vs[j] == vs[1..][j - 1];
          }
        } else {
          forall j | 0 <= j < |vs| ensures IsNullish(vs[j]) {
            assert j > 0 ==> vs[j] == vs[1..][j - 1];
          }
        }
      } else {
        assert vs[0] == FirstPresent(vs);
      }
    }
  }

  /** No condition before the branch holds, and each of them evaluates. */
  predicate PassesOver(cx: Context, b: Binding, branches: seq<Branch>, n: nat)
    requires n <= |branches|
  {
    forall j | 0 <= j < n :: Decide(cx, b, branches[j].when) == Some(false)
  }

  /** CASE gives the value of the first branch whose condition holds, else the ELSE value or null. */
  lemma {:induction false} FirstBranch(cx: Context, b: Binding, branches: seq<Branch>, otherwise: Option<Expression>,
                                       owner: Expression, n: nat)
    requires n <= |branches| && PassesOver(cx, b, branches, n)
    requires (forall x | x in branches :: x < owner) && (otherwise.Some? ==> otherwise.value < owner)
    ensures n == |branches| ==>
              EvaluateBranches(cx, b, branches, otherwise, owner) ==
              if otherwise.Some? then Evaluate(cx, b, otherwise.value) else Some(JsNull)
    ensures n < |branches| && Decide(cx, b, branches[n].when) == Some(true) ==>
              EvaluateBranches(cx, b, branches, otherwise, owner) == Evaluate(cx, b, branches[n].thenValue)
    ensures n < |branches| && Decide(cx, b, branches[n].when) == None ==>
              EvaluateBranches(cx, b, branches, otherwise, owner) == None
    decreases n
  {
    if n > 0 {
      assert Decide(cx, b, branches[0].when) == Some(false);
      assert branches[0] in branches && forall x | x in branches[1..] :: x in branches;
      assert PassesOver(cx, b, branches[1..], n - 1) by {
        forall j | 0 <= j < n - 1 ensures Decide(cx, b, branches[1..][j].when) == Some(false) {
          assert branches[1..][j] == branches[j + 1];
        }
      }
      FirstBranch(cx, b, branches[1..], otherwise, owner, n - 1);
    } else if branches != [] {
      assert branches[0] in branches;
    }
  }
}
