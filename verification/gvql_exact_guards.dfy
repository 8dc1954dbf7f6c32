/** The exact guards of single comparisons. */
module GvqlExactGuards {
  // The exact guards of range, text, full-text and expression indexes.

  import opened EncodedGraph
  import opened GvqlValues
  import opened GvqlExpressions
  import opened GvqlIndexKeys
  import opened GvqlAdvancedIndex
  import opened GvqlMatcher
  import opened GvqlSelectionSafety
  import opened GvqlStatementLimits

  // Partial conditions.

  /** The partial condition, if any, is about another property than the one compared. */
  predicate PartialElsewhere(d: Definition, path: Path) {
    d.partial.Some? ==> d.partial.value.path.text != path.text
  }

  /** The condition holds of every node: `!=` with a value nothing equals. */
  predicate AlwaysMatches(c: PartialCondition) {
    c.operator.NotEqual? && (IsObject(c.value) || c.value == JsSpecial(NotANumber))
  }

  predicate PartialAlways(d: Definition) {
    d.partial.Some? ==> AlwaysMatches(d.partial.value)
  }

  /** Every node of the pattern is of the definition's type. */
  predicate CoversType(d: Definition, typeName: Option<string>) {
    d.typeName.Some? ==> typeName.Some?
  }

  /** A number above all numbers of the list. */
  function Above(vs: seq<JsValue>): (n: nat)
    ensures n >= 1 && forall v | v in vs && v.JsNumber? :: v.number < n as real
  {
    if vs == [] then 1
    else
      var rest := Above(vs[1..]);
      if vs[0].JsNumber? && vs[0].number >= rest as real then vs[0].number.Floor + 1 else rest
  }

  /** A property, or none, on which the condition fails. */
  function Counterexample(c: PartialCondition): seq<Property>
    requires !AlwaysMatches(c)
  {
    match c.operator
    case IsNull => [Property(c.path.text, Number(1.0))]
    case IsNotNull => []
    case In => [Property(c.path.text, Number(Above(c.values) as real))]
    case NotEqual => [Property(c.path.text, JsToEncoded(c.value).value)]
    case _ => if c.value == JsUndefined then [Property(c.path.text, Null)] else []
  }

  /** An object whose property `path` has this value, and more properties. */
  function ObjectWith(typeName: Option<string>, path: Path, e: EncodedValue, more: seq<Property>): EncodedNode {
    ObjectNode(typeName, [Property(path.text, e)] + more)
  }

  lemma ReadsBack(typeName: Option<string>, path: Path, e: EncodedValue, more: seq<Property>, other: Path)
    requires other.text != path.text
    ensures var node := ObjectWith(typeName, path, e, more);
            && ReadValue(node, path) == EncodedToJs(e)
            && ReadValue(node, other) == PathToJs(FindProperty(more, other.text))
  {
    var props := [Property(path.text, e)] + more;
    assert props[1..] == more;
  }

  lemma CounterexampleFails(c: PartialCondition, typeName: Option<string>, path: Path, e: EncodedValue)
    requires !AlwaysMatches(c) && c.path.text != path.text
    ensures !MatchesPartial(ObjectWith(typeName, path, e, Counterexample(c)), c)
  {
    ReadsBack(typeName, path, e, Counterexample(c), c.path);
  }

  // From values to nodes.

  ghost predicate CanPass(rt: Runtime, parameters: map<string, JsValue>, p: Predicate)
    requires p.right.Constant?
  {
    exists e :: Passes(rt, parameters, p, EncodedToJs(e))
  }

  ghost predicate ValuesListed(rt: Runtime, parameters: map<string, JsValue>, p: Predicate, d: Definition)
    requires p.right.Constant?
  {
    forall e | Passes(rt, parameters, p, EncodedToJs(e)) :: ValueListed(rt, parameters, p, d, EncodedToJs(e))
  }

  /** A missing value that passes is nowhere listed. */
  lemma UndefinedNotListed(rt: Runtime, parameters: map<string, JsValue>, start: NodePattern, p: Predicate,
                           d: Definition)
    requires HostLanguage(rt) && OnlyAdvanced(start.alias, p, d) && Offers(rt, parameters, start, p, d)
    requires Passes(rt, parameters, p, JsUndefined)
    ensures !ValueListed(rt, parameters, p, d, JsUndefined)
  {
  }

  lemma ReadIsEncoded(node: EncodedNode, path: Path) returns (e: EncodedValue)
    ensures ReadValue(node, path) == EncodedToJs(e)
  {
    var found := GetNodePath(node, path);
    e := if found.Some? then found.value else Undefined;
  }

  /** One value that passes: its object, with and without the counterexample, is listed only under full coverage. */
  lemma CoverageNeeded(rt: Runtime, parameters: map<string, JsValue>, start: NodePattern, p: Predicate, d: Definition,
                       e: EncodedValue)
    requires Simple(start.alias, p) && PartialElsewhere(d, SubjectPath(start.alias, p))
    requires Passes(rt, parameters, p, EncodedToJs(e)) && forall node :: !NodeLost(rt, parameters, start, p, d, node)
    ensures CoversType(d, start.typeName) && PartialAlways(d) && ValueListed(rt, parameters, p, d, EncodedToJs(e))
  {
    var path := SubjectPath(start.alias, p);
    var plain := ObjectWith(start.typeName, path, e, []);
    assert !NodeLost(rt, parameters, start, p, d, plain);
    if !PartialAlways(d) {
      CounterexampleLost(rt, parameters, start, p, d, e);
    }
  }

  lemma CounterexampleLost(rt: Runtime, parameters: map<string, JsValue>, start: NodePattern, p: Predicate,
                           d: Definition,
                           e: EncodedValue)
    requires Simple(start.alias, p) && PartialElsewhere(d, SubjectPath(start.alias, p)) && !PartialAlways(d)
    requires Passes(rt, parameters, p, EncodedToJs(e))
    ensures exists node :: NodeLost(rt, parameters, start, p, d, node)
  {
    var c, path := d.partial.value, SubjectPath(start.alias, p);
    ReadsBack(start.typeName, path, e, Counterexample(c), c.path);
    CounterexampleFails(c, start.typeName, path, e);
    assert NodeLost(rt, parameters, start, p, d, ObjectWith(start.typeName, path, e, Counterexample(c)));
  }

  lemma CoverageSuffices(rt: Runtime, parameters: map<string, JsValue>, start: NodePattern, p: Predicate, d: Definition,
                         node: EncodedNode)
    requires HostLanguage(rt) && OnlyAdvanced(start.alias, p, d) && Offers(rt, parameters, start, p, d)
    requires ValuesListed(rt, parameters, p, d) && CoversType(d, start.typeName) && PartialAlways(d)
    ensures !NodeLost(rt, parameters, start, p, d, node)
  {
    var read := ReadValue(node, SubjectPath(start.alias, p));
    if TypeIs(node, start.typeName) && Passes(rt, parameters, p, read) {
      var e := ReadIsEncoded(node, SubjectPath(start.alias, p));
      assert ValueListed(rt, parameters, p, d, EncodedToJs(e));
      if !node.ObjectNode? {
        UndefinedNotListed(rt, parameters, start, p, d);
      }
    }
  }

  /** No node is lost exactly when every passing value is listed, and coverage is full if any value passes. */
  lemma NoNodeLostIff(rt: Runtime, parameters: map<string, JsValue>, start: NodePattern, p: Predicate, d: Definition)
    requires HostLanguage(rt) && OnlyAdvanced(start.alias, p, d) && Offers(rt, parameters, start, p, d)
    requires PartialElsewhere(d, SubjectPath(start.alias, p))
    ensures (forall node :: !NodeLost(rt, parameters, start, p, d, node)) <==>
            && ValuesListed(rt, parameters, p, d)
            && (CanPass(rt, parameters, p) ==> CoversType(d, start.typeName) && PartialAlways(d))
  {
    if forall node :: !NodeLost(rt, parameters, start, p, d, node) {
      forall e | Passes(rt, parameters, p, EncodedToJs(e))
        ensures ValueListed(rt, parameters, p, d, EncodedToJs(e)) && CoversType(d, start.typeName) && PartialAlways(d)
      {
        CoverageNeeded(rt, parameters, start, p, d, e);
      }
    } else if ValuesListed(rt, parameters, p, d) &&
    (CanPass(rt, parameters, p) ==> CoversType(d, start.typeName) && PartialAlways(d)) {
      var node :| NodeLost(rt, parameters, start, p, d, node);
      var e := ReadIsEncoded(node, SubjectPath(start.alias, p));
      assert Passes(rt, parameters, p, EncodedToJs(e));
      CoverageSuffices(rt, parameters, start, p, d, node);
    }
  }

  // Range indexes.

  /**
   * A range index keeps the rows of every graph exactly when a missing value does not pass, and, if any value passes,
   * all nodes of the pattern are of the definition's type and meet its partial condition.
   */
  lemma RangeExact(rt: Runtime, parameters: map<string, JsValue>, start: NodePattern, p: Predicate, d: Definition)
    requires HostLanguage(rt) && OnlyAdvanced(start.alias, p, d) && PartialElsewhere(d, SubjectPath(start.alias, p)) &&
             d.kind.Range?
    ensures AlwaysSame(rt, parameters, start, Test(p), NOTHING_CONFIGURED, [d]) <==>
            (Offers(rt, parameters, start, p, d) ==>
              && !Passes(rt, parameters, p, JsUndefined)
              && (CanPass(rt, parameters, p) ==> CoversType(d, start.typeName) && PartialAlways(d)))
  {
    AlwaysSameIff(rt, parameters, start, p, d);
    if Offers(rt, parameters, start, p, d) {
      NoNodeLostIff(rt, parameters, start, p, d);
      RangeValues(rt, parameters, start, p, d);
    }
  }

  lemma RangeValues(rt: Runtime, parameters: map<string, JsValue>, start: NodePattern, p: Predicate, d: Definition)
    requires OnlyAdvanced(start.alias, p, d) && d.kind.Range? && Offers(rt, parameters, start, p, d)
    ensures ValuesListed(rt, parameters, p, d) <==> !Passes(rt, parameters, p, JsUndefined)
  {
    assert EncodedToJs(Undefined) == JsUndefined;
    forall e ensures IsNullish(EncodedToJs(e)) ==>
                       Passes(rt, parameters, p, EncodedToJs(e)) == Passes(rt, parameters, p, JsUndefined)
    {
      NullishCompareAlike(Bare(rt, parameters), EncodedToJs(e), p.operator, ConstantIn(parameters, p));
    }
  }

  // Text indexes.

  /**
   * A text index keeps the rows of every graph exactly when the needle's normal form is short enough, normal forms keep
   * the looked-up pieces of the needle in place, and the definition covers all nodes of the pattern.
   */
  lemma TextExact(rt: Runtime, parameters: map<string, JsValue>, start: NodePattern, p: Predicate, d: Definition)
    requires HostLanguage(rt) && OnlyAdvanced(start.alias, p, d) && PartialElsewhere(d, SubjectPath(start.alias, p)) &&
             d.kind.TextTerms?
    ensures AlwaysSame(rt, parameters, start, Test(p), NOTHING_CONFIGURED, [d]) <==>
            (Offers(rt, parameters, start, p, d) ==>
              && AffixListed(p.operator, Needle(rt, parameters, p, d))
              && FormsKeep(rt, p.operator, TextOf(rt, ConstantIn(parameters, p)), d.text)
              && CoversType(d, start.typeName) && PartialAlways(d))
  {
    AlwaysSameIff(rt, parameters, start, p, d);
    if Offers(rt, parameters, start, p, d) {
      NoNodeLostIff(rt, parameters, start, p, d);
      TextValues(rt, parameters, start, p, d);
      NeedlePasses(rt, parameters, start, p, d);
    }
  }

  lemma TextPasses(rt: Runtime, parameters: map<string, JsValue>, p: Predicate, s: string)
    requires HostLanguage(rt) && p.right.Constant? && !p.left.Call? && IsTextOperator(p.operator)
    ensures EncodedToJs(Text(s)) == JsString(s)
    ensures Passes(rt, parameters, p, JsString(s)) <==> TextHolds(p.operator, s, TextOf(rt, ConstantIn(parameters, p)))
  {
  }

  /** The needle itself passes. */
  lemma NeedlePasses(rt: Runtime, parameters: map<string, JsValue>, start: NodePattern, p: Predicate, d: Definition)
    requires HostLanguage(rt) && OnlyAdvanced(start.alias, p, d) && Offers(rt, parameters, start, p, d)
    requires d.kind.TextTerms? || d.kind.FullText?
    ensures CanPass(rt, parameters, p)
  {
    var n := TextOf(rt, ConstantIn(parameters, p));
    TextPasses(rt, parameters, p, n);
    assert OccursAt(n, n, 0);
    assert Passes(rt, parameters, p, EncodedToJs(Text(n)));
  }

  /** A listed text has the pieces, and the needle is short enough. */
  lemma TextListedIff(rt: Runtime, parameters: map<string, JsValue>, start: NodePattern, p: Predicate, d: Definition,
                      read: JsValue)
    requires HostLanguage(rt) && OnlyAdvanced(start.alias, p, d) && Offers(rt, parameters, start, p, d) &&
             d.kind.TextTerms?
    requires Passes(rt, parameters, p, read)
    ensures ValueListed(rt, parameters, p, d, read) <==>
            && AffixListed(p.operator, Needle(rt, parameters, p, d))
            && PiecesHold(p.operator, rt.normalize(TextOf(rt, read), d.text.caseSensitive),
                          Needle(rt, parameters, p, d), d.text)
  {
    TermsListedIff(rt, p.operator, rt.normalize(TextOf(rt, read), d.text.caseSensitive), Needle(rt, parameters, p, d),
                   d.text);
  }

  lemma TextValues(rt: Runtime, parameters: map<string, JsValue>, start: NodePattern, p: Predicate, d: Definition)
    requires HostLanguage(rt) && OnlyAdvanced(start.alias, p, d) && Offers(rt, parameters, start, p, d) &&
             d.kind.TextTerms?
    ensures ValuesListed(rt, parameters, p, d) <==>
            && AffixListed(p.operator, Needle(rt, parameters, p, d))
            && FormsKeep(rt, p.operator, TextOf(rt, ConstantIn(parameters, p)), d.text)
  {
    var n := TextOf(rt, ConstantIn(parameters, p));
    if ValuesListed(rt, parameters, p, d) {
      assert OccursAt(n, n, 0);
      forall s: string | TextHolds(p.operator, s, n)
        ensures AffixListed(p.operator, Needle(rt, parameters, p, d))
        ensures PiecesHold(p.operator, rt.normalize(s, d.text.caseSensitive), rt.normalize(n, d.text.caseSensitive),
                           d.text)
      {
        TextPasses(rt, parameters, p, s);
        assert ValueListed(rt, parameters, p, d, EncodedToJs(Text(s)));
        TextListedIff(rt, parameters, start, p, d, JsString(s));
      }
      assert TextHolds(p.operator, n, n);
    } else {
      var e :| Passes(rt, parameters, p, EncodedToJs(e)) && !ValueListed(rt, parameters, p, d, EncodedToJs(e));
      TextListedIff(rt, parameters, start, p, d, EncodedToJs(e));
      assert TextHolds(p.operator, TextOf(rt, EncodedToJs(e)), n);
    }
  }

  // Full-text indexes.

  /** Every text that contains the needle has all words of its normal form. */
  ghost predicate WordsKeep(rt: Runtime, needle: string, caseSensitive: bool) {
    forall s: string | Includes(s, needle) ::
      rt.tokens(rt.normalize(needle, caseSensitive)) <= rt.tokens(rt.normalize(s, caseSensitive))
  }

  /** A full-text index keeps the rows of every graph exactly when containing texts have the needle's words. */
  lemma FullTextExact(rt: Runtime, parameters: map<string, JsValue>, start: NodePattern, p: Predicate, d: Definition)
    requires HostLanguage(rt) && OnlyAdvanced(start.alias, p, d) && PartialElsewhere(d, SubjectPath(start.alias, p)) &&
             d.kind.FullText?
    ensures AlwaysSame(rt, parameters, start, Test(p), NOTHING_CONFIGURED, [d]) <==>
            (Offers(rt, parameters, start, p, d) ==>
              && WordsKeep(rt, TextOf(rt, ConstantIn(parameters, p)), d.text.caseSensitive)
              && CoversType(d, start.typeName) && PartialAlways(d))
  {
    AlwaysSameIff(rt, parameters, start, p, d);
    if Offers(rt, parameters, start, p, d) {
      NoNodeLostIff(rt, parameters, start, p, d);
      WordValues(rt, parameters, start, p, d);
      NeedlePasses(rt, parameters, start, p, d);
    }
  }

  lemma WordValues(rt: Runtime, parameters: map<string, JsValue>, start: NodePattern, p: Predicate, d: Definition)
    requires HostLanguage(rt) && OnlyAdvanced(start.alias, p, d) && Offers(rt, parameters, start, p, d) &&
             d.kind.FullText?
    ensures ValuesListed(rt, parameters, p, d) <==>
            WordsKeep(rt, TextOf(rt, ConstantIn(parameters, p)), d.text.caseSensitive)
  {
    var n := TextOf(rt, ConstantIn(parameters, p));
    if ValuesListed(rt, parameters, p, d) {
      forall s: string | Includes(s, n) ensures
        rt.tokens(rt.normalize(n, d.text.caseSensitive)) <= rt.tokens(rt.normalize(s, d.text.caseSensitive))
      {
        TextPasses(rt, parameters, p, s);
        assert ValueListed(rt, parameters, p, d, EncodedToJs(Text(s)));
      }
    } else {
      var e :| Passes(rt, parameters, p, EncodedToJs(e)) && !ValueListed(rt, parameters, p, d, EncodedToJs(e));
      assert Includes(TextOf(rt, EncodedToJs(e)), n);
    }
  }

  // Expression indexes.

  /** If WHERE's case mapping takes `t` to the text, so does the locale-aware mapping of the index. */
  predicate CaseOn(rt: Runtime, fn: ScalarFunction, text: string, t: string) {
    match fn
    case Lower => rt.lower(t) == text ==> rt.localeLower(t) == text
    case Upper => rt.upper(t) == text ==> rt.localeUpper(t) == text
    case _ => true
  }

  ghost predicate CaseAgrees(rt: Runtime, fn: ScalarFunction, v: JsValue) {
    v.JsString? ==> forall t :: CaseOn(rt, fn, v.text, t)
  }

  /**
   * An expression index keeps the rows of every graph exactly when the constant is not null, the case mappings agree on
   * it, and, if any value passes, the definition covers all nodes of the pattern.
   */
  lemma ComputedExact(rt: Runtime, parameters: map<string, JsValue>, start: NodePattern, p: Predicate, d: Definition)
    requires HostLanguage(rt) && OnlyAdvanced(start.alias, p, d) && PartialElsewhere(d, SubjectPath(start.alias, p)) &&
             d.kind.Computed?
    ensures AlwaysSame(rt, parameters, start, Test(p), NOTHING_CONFIGURED, [d]) <==>
            (Offers(rt, parameters, start, p, d) ==>
              && ConstantIn(parameters, p) != JsNull && CaseAgrees(rt, d.fn, ConstantIn(parameters, p))
              && (CanPass(rt, parameters, p) ==> CoversType(d, start.typeName) && PartialAlways(d)))
  {
    AlwaysSameIff(rt, parameters, start, p, d);
    if Offers(rt, parameters, start, p, d) {
      NoNodeLostIff(rt, parameters, start, p, d);
      ComputedValues(rt, parameters, start, p, d);
    }
  }

  lemma ComputedValues(rt: Runtime, parameters: map<string, JsValue>, start: NodePattern, p: Predicate, d: Definition)
    requires HostLanguage(rt) && OnlyAdvanced(start.alias, p, d)
    requires Offers(rt, parameters, start, p, d) && d.kind.Computed?
    ensures ValuesListed(rt, parameters, p, d) <==>
            ConstantIn(parameters, p) != JsNull && CaseAgrees(rt, d.fn, ConstantIn(parameters, p))
  {
    if ValuesListed(rt, parameters, p, d) {
      ListedAgrees(rt, parameters, start, p, d);
    } else if ConstantIn(parameters, p) != JsNull && CaseAgrees(rt, d.fn, ConstantIn(parameters, p)) {
      forall e | Passes(rt, parameters, p, EncodedToJs(e)) ensures ValueListed(rt, parameters, p, d, EncodedToJs(e)) {
        AgreeingListed(rt, parameters, start, p, d, EncodedToJs(e));
      }
    }
  }

  lemma ListedAgrees(rt: Runtime, parameters: map<string, JsValue>, start: NodePattern, p: Predicate, d: Definition)
    requires HostLanguage(rt) && OnlyAdvanced(start.alias, p, d)
    requires Offers(rt, parameters, start, p, d) && d.kind.Computed? && ValuesListed(rt, parameters, p, d)
    ensures ConstantIn(parameters, p) != JsNull && CaseAgrees(rt, d.fn, ConstantIn(parameters, p))
  {
    assert EncodedToJs(Undefined) == JsUndefined;
    if Passes(rt, parameters, p, JsUndefined) {
      UndefinedNotListed(rt, parameters, start, p, d);
    }
    if ConstantIn(parameters, p).JsString? {
      forall t: string ensures CaseOn(rt, d.fn, ConstantIn(parameters, p).text, t) {
        assert EncodedToJs(Text(t)) == JsString(t);
        ListedCase(rt, parameters, start, p, d, t);
      }
    }
  }

  lemma AgreeingListed(rt: Runtime, parameters: map<string, JsValue>, start: NodePattern, p: Predicate, d: Definition,
                       read: JsValue)
    requires HostLanguage(rt) && OnlyAdvanced(start.alias, p, d)
    requires Offers(rt, parameters, start, p, d) && d.kind.Computed? && Passes(rt, parameters, p, read)
    requires ConstantIn(parameters, p) != JsNull && CaseAgrees(rt, d.fn, ConstantIn(parameters, p))
    ensures ValueListed(rt, parameters, p, d, read)
  {
    var v := ConstantIn(parameters, p);
    assert StrictEquals(Scalar(Bare(rt, parameters), d.fn, read), v) && !IsNullish(read);
    assert v.JsString? ==> CaseOn(rt, d.fn, v.text, rt.text(read));
    EqualValuesShareKey(rt, DefinedFrom(rt, d, read), v);
  }

  lemma ListedCase(rt: Runtime, parameters: map<string, JsValue>, start: NodePattern, p: Predicate, d: Definition,
                   t: string)
    requires HostLanguage(rt) && OnlyAdvanced(start.alias, p, d) && Offers(rt, parameters, start, p, d) &&
             d.kind.Computed?
    requires ConstantIn(parameters, p).JsString?
    requires Passes(rt, parameters, p, JsString(t)) ==> ValueListed(rt, parameters, p, d, JsString(t))
    ensures CaseOn(rt, d.fn, ConstantIn(parameters, p).text, t)
  {
    var v, first := ConstantIn(parameters, p), DefinedFrom(rt, d, JsString(t));
    if Passes(rt, parameters, p, JsString(t)) && first.JsString? {
      assert StableKey(rt, first)[7..] == rt.text(first) && StableKey(rt, v)[7..] == rt.text(v);
    }
  }
}
