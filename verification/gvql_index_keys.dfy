/** Keys and text terms of the indexes. */
module GvqlIndexKeys {
  import opened EncodedGraph
  import opened GvqlValues
  import opened GvqlExpressions

  /** What is assumed of the host language's texts and number comparison. */
  ghost predicate HostLanguage(rt: Runtime) {
    && (forall s :: rt.text(JsString(s)) == s)
    && rt.text(JsSpecial(NegativeZero)) == rt.text(JsNumber(0.0))
    && (forall a, b, v | IsNumber(a) && IsNumber(b) && rt.text(a) == rt.text(b) ::
         rt.compareNumbers(a, v) == rt.compareNumbers(b, v))
    && (forall i, j :: rt.text(JsReference(i)) == rt.text(JsReference(j)))
    && (forall caseSensitive :: rt.normalize("", caseSensitive) == "")
    && rt.tokens("") == {}
  }

  /** A small runtime that meets these assumptions: one number text, texts ordered by length, each text one token. */
  function SampleText(v: JsValue): string {
    match v
    case JsString(s) => s
    case JsBoolean(b) => if b then "true" else "false"
    case JsNumber(_) => "number"
    case JsSpecial(_) => "number"
    case _ => "value"
  }

  /** `étude` in decomposed form, as two characters for its first letter, and in composed form. */
  const DECOMPOSED := "e\U{301}tude"
  const COMPOSED := "\U{e9}tude"

  function SampleRuntime(): Runtime {
    Runtime(
      SampleText,
      SampleText,
      (a: string, b: string) => |a| - |b|,
      (s: string) => s,
      (s: string) => s,
      (s: string) => s,
      (s: string) => s,
      (s: string) => s,
      (s: string, caseSensitive: bool) => if s == DECOMPOSED then COMPOSED else s,
      (s: string) => if s == "" then {} else {s},
      (operation: Arithmetic, a: JsValue, b: JsValue) => JsNumber(0.0),
      (a: JsValue, b: JsValue) => Some(0))
  }

  lemma HostLanguageIsMet()
    ensures HostLanguage(SampleRuntime())
  {
    assert |DECOMPOSED| == 6;
  }

  /** `stableIndexValueKey`. */
  function StableKey(rt: Runtime, v: JsValue): string {
    match v
    case JsUndefined => "undefined:undefined"
    case JsNull => "object:null"
    case JsBoolean(_) => "boolean:" + rt.text(v)
    case JsString(_) => "string:" + rt.text(v)
    case JsNumber(_) => "number:" + rt.text(v)
    case JsSpecial(_) => "number:" + rt.text(v)
    case JsBigInt(_) => "bigint:" + rt.text(v)
    case _ => "json:" + rt.json(v)
  }

  function StableKeys(rt: Runtime): JsValue -> string {
    (v: JsValue) => StableKey(rt, v)
  }

  const TUPLE_SEPARATOR := "\U{1}"

  /** `tupleIndexKey`. */
  function TupleKey(rt: Runtime, vs: seq<JsValue>): string {
    if vs == [] then ""
    else if |vs| == 1 then StableKey(rt, vs[0])
    else StableKey(rt, vs[0]) + TUPLE_SEPARATOR + TupleKey(rt, vs[1..])
  }

  lemma EqualValuesShareKey(rt: Runtime, a: JsValue, b: JsValue)
    requires HostLanguage(rt) && SameValueZero(a, b)
    ensures StableKey(rt, a) == StableKey(rt, b)
  {
  }

  lemma {:induction false} EqualTuplesShareKey(rt: Runtime, a: seq<JsValue>, b: seq<JsValue>)
    requires HostLanguage(rt) && |a| == |b| && forall i | 0 <= i < |a| :: SameValueZero(a[i], b[i])
    ensures TupleKey(rt, a) == TupleKey(rt, b)
    decreases |a|
  {
    if a != [] {
      EqualValuesShareKey(rt, a[0], b[0]);
      EqualTuplesShareKey(rt, a[1..], b[1..]);
    }
  }

  /** Values that share a key stand in the same order to every other value. */
  lemma SharedKeyComparesAlike(cx: Context, a: JsValue, b: JsValue, v: JsValue)
    requires HostLanguage(cx.runtime) && StableKey(cx.runtime, a) == StableKey(cx.runtime, b)
    requires !a.JsArray? && !b.JsArray? && !a.JsSummary? && !b.JsSummary?
    ensures Compare(cx, a, v) == Compare(cx, b, v)
  {
    var ka, kb := StableKey(cx.runtime, a), StableKey(cx.runtime, b);
    assert ka[0] == kb[0] && ka[1] == kb[1];
    if IsNumber(a) {
      assert ka[7..] == cx.runtime.text(a) && kb[7..] == cx.runtime.text(b);
    } else if a.JsString? {
      assert ka[7..] == cx.runtime.text(a) && kb[7..] == cx.runtime.text(b);
    } else if a.JsBoolean? {
      assert ka[8..] == cx.runtime.text(a) && kb[8..] == cx.runtime.text(b);
    } else if a.JsBigInt? {
      assert ka[7..] == cx.runtime.text(a) && kb[7..] == cx.runtime.text(b);
    }
  }

  // Text terms.

  function Min(a: int, b: int): int {
    if a < b then a else b
  }

  function Max(a: int, b: int): int {
    if a < b then b else a
  }

  /** Gram bounds as configured. */
  datatype TextOptions = TextOptions(caseSensitive: bool, minGram: int, maxGram: int)

  function LeastGram(o: TextOptions): (n: nat)
    ensures n >= 1
  {
    Max(1, o.minGram)
  }

  function GreatestGram(o: TextOptions): (n: nat)
    ensures n >= LeastGram(o)
  {
    Max(LeastGram(o), o.maxGram)
  }

  const LONGEST_AFFIX := 64

  function PrefixTerm(s: string): string {
    "prefix:" + s
  }

  function SuffixTerm(s: string): string {
    "suffix:" + s
  }

  function GramTerm(s: string): string {
    "gram:" + s
  }

  function TokenTerm(s: string): string {
    "token:" + s
  }

  function Slice(t: string, i: nat, n: nat): string
    requires i + n <= |t|
  {
    t[i..i + n]
  }

  predicate AffixTermOf(t: string, n: nat, term: string)
    requires n <= |t|
  {
    term == PrefixTerm(t[..n]) || term == SuffixTerm(t[|t| - n..])
  }

  predicate GramOf(t: string, n: nat, term: string) {
    exists i | 0 <= i <= |t| - n :: term == GramTerm(Slice(t, i, n))
  }

  /** The terms that list the normalised text `t`. */
  predicate IsIndexTerm(rt: Runtime, t: string, o: TextOptions, term: string) {
    || (exists n | 1 <= n <= Min(|t|, LONGEST_AFFIX) :: AffixTermOf(t, n, term))
    || (exists n | LeastGram(o) <= n <= Min(GreatestGram(o), |t|) :: GramOf(t, n, term))
    || (t != "" && exists token | token in rt.tokens(t) :: term == TokenTerm(token))
  }

  /** `textIndexTerms`. */
  method TextIndexTerms(rt: Runtime, value: string, o: TextOptions) returns (terms: set<string>)
    ensures forall term :: term in terms <==> IsIndexTerm(rt, rt.normalize(value, o.caseSensitive), o, term)
  {
    var t := rt.normalize(value, o.caseSensitive);
    terms := {};
    if t == "" {
      return;
    }
    for n := 1 to Min(|t|, LONGEST_AFFIX) + 1
      invariant forall term :: term in terms <==> exists m | 1 <= m < n :: AffixTermOf(t, m, term)
    {
      var affix := {PrefixTerm(t[..n]), SuffixTerm(t[|t| - n..])};
      assert forall term :: AffixTermOf(t, n, term) <==> term in affix;
      terms := terms + affix;
    }
    ghost var affixes := terms;
    for n := LeastGram(o) to Max(LeastGram(o), Min(GreatestGram(o), |t|) + 1)
      invariant forall term :: term in terms <==>
                term in affixes || exists m | LeastGram(o) <= m < n :: GramOf(t, m, term)
    {
      terms := AddGrams(t, n, terms);
    }
    ghost var listed := terms;
    terms := terms + set token | token in rt.tokens(t) :: TokenTerm(token);
    forall term ensures term in terms <==> IsIndexTerm(rt, t, o, term) {
      assert term in affixes <==> exists m | 1 <= m <= Min(|t|, LONGEST_AFFIX) :: AffixTermOf(t, m, term);
      assert term in listed <==> term in affixes || exists m | LeastGram(o) <= m <= Min(GreatestGram(o), |t|) ::
             GramOf(t, m, term);
    }
  }

  method AddGrams(t: string, n: nat, terms: set<string>) returns (terms': set<string>)
    ensures forall term :: term in terms' <==> term in terms || GramOf(t, n, term)
  {
    terms' := terms;
    for i := 0 to Max(0, |t| - n + 1)
      invariant forall term :: term in terms' <==>
                term in terms || exists j | 0 <= j < i :: term == GramTerm(Slice(t, j, n))
    {
      terms' := terms' + {GramTerm(Slice(t, i, n))};
    }
  }

  /** The grams of one size. */
  function Grams(t: string, n: nat): (terms: seq<string>)
    requires n <= |t|
    ensures forall term :: term in terms <==> GramOf(t, n, term)
  {
    var terms := seq(|t| - n + 1, i requires 0 <= i < |t| - n + 1 => GramTerm(Slice(t, i, n)));
    assert forall i | 0 <= i <= |t| - n :: terms[i] == GramTerm(Slice(t, i, n));
    terms
  }

  /** The size of the grams looked up for the normalised needle. */
  function LookupSize(needle: string, o: TextOptions): nat {
    Min(GreatestGram(o), |needle|)
  }

  /** The terms a text operator looks up for the normalised needle `t`. */
  function LookupTerms(operator: Operator, t: string, o: TextOptions): seq<string> {
    if t == "" then []
    else if operator.StartsWith? then [PrefixTerm(t)]
    else if operator.EndsWith? then [SuffixTerm(t)]
    else if |t| < LeastGram(o) then []
    else Grams(t, LookupSize(t, o))
  }

  /**
   * `textLookupTerms`: the needle itself as an affix, or all its grams of the largest size that fits; none if too
   * short.
   */
  method TextLookupTerms(rt: Runtime, operator: Operator, value: string, o: TextOptions) returns (terms: seq<string>)
    ensures terms == LookupTerms(operator, rt.normalize(value, o.caseSensitive), o)
    ensures var t := rt.normalize(value, o.caseSensitive);
            forall term :: term in terms <==>
              && t != ""
              && if operator.StartsWith? then term == PrefixTerm(t)
                 else if operator.EndsWith? then term == SuffixTerm(t)
                 else LeastGram(o) <= |t| && GramOf(t, LookupSize(t, o), term)
  {
    var t := rt.normalize(value, o.caseSensitive);
    if t == "" {
      return [];
    }
    if operator.StartsWith? {
      return [PrefixTerm(t)];
    }
    if operator.EndsWith? {
      return [SuffixTerm(t)];
    }
    if |t| < LeastGram(o) {
      return [];
    }
    var n := LookupSize(t, o);
    terms := [];
    for i := 0 to |t| - n + 1
      invariant |terms| == i && forall j | 0 <= j < i :: terms[j] == GramTerm(Slice(t, j, n))
    {
      terms := terms + [GramTerm(Slice(t, i, n))];
    }
  }

  /** The text operators, on normalised texts. */
  predicate TextHolds(operator: Operator, s: string, needle: string) {
    match operator
    case StartsWith => HasPrefix(s, needle)
    case EndsWith => HasSuffix(s, needle)
    case Contains => Includes(s, needle)
    case _ => false
  }

  predicate IsTextOperator(operator: Operator) {
    operator.Contains? || operator.StartsWith? || operator.EndsWith?
  }

  lemma Occurrence(operator: Operator, s: string, needle: string) returns (i: nat)
    requires TextHolds(operator, s, needle)
    ensures OccursAt(s, needle, i) && (operator.StartsWith? ==> i == 0) && (operator.EndsWith? ==> i + |needle| == |s|)
  {
    if operator.StartsWith? {
      i := 0;
    } else if operator.EndsWith? {
      i := |s| - |needle|;
    } else {
      i :| 0 <= i <= |s| && OccursAt(s, needle, i);
    }
  }

  // When a listed value has every looked-up term.

  /** The needle is short enough for the affix terms, or the operator does not use them. */
  predicate AffixListed(operator: Operator, needle: string) {
    operator.Contains? || |needle| <= LONGEST_AFFIX
  }

  /** Every piece of the needle that is looked up is in its place in `s`. */
  ghost predicate PiecesHold(operator: Operator, s: string, needle: string, o: TextOptions) {
    if operator.Contains? then
      forall term | term in LookupTerms(Contains, needle, o) :: GramOf(s, LookupSize(needle, o), term)
    else TextHolds(operator, s, needle)
  }

  lemma SliceOfSlice(t: string, i: nat, m: nat, j: nat, n: nat)
    requires i + m <= |t| && j + n <= m
    ensures Slice(t[i..i + m], j, n) == Slice(t, i + j, n)
  {
    var part, whole := t[i..i + m][j..j + n], t[i + j..i + j + n];
    forall k | 0 <= k < n ensures part[k] == whole[k] {
      assert part[k] == t[i..i + m][j + k] == t[i + j + k];
    }
    assert part == whole;
  }

  /** Where the operator holds of two texts, so do the pieces: grams of an occurring needle are grams of the text. */
  lemma HoldsByPieces(operator: Operator, s: string, needle: string, o: TextOptions)
    requires TextHolds(operator, s, needle)
    ensures PiecesHold(operator, s, needle, o)
  {
    if operator.Contains? {
      var i :| 0 <= i <= |s| && OccursAt(s, needle, i);
      var n := LookupSize(needle, o);
      forall term | term in LookupTerms(Contains, needle, o) ensures GramOf(s, n, term) {
        var j :| 0 <= j <= |needle| - n && term == GramTerm(Slice(needle, j, n));
        SliceOfSlice(s, i, |needle|, j, n);
        assert term == GramTerm(Slice(s, i + j, n));
      }
    }
  }

  /**
   * A value is listed under every looked-up term exactly when the pieces are in place and the needle is short enough
   * (a longer prefix or suffix is looked up but never listed).
   */
  lemma TermsListedIff(rt: Runtime, operator: Operator, s: string, needle: string, o: TextOptions)
    requires IsTextOperator(operator)
    ensures (forall term | term in LookupTerms(operator, needle, o) :: IsIndexTerm(rt, s, o, term)) <==>
            needle == "" || (PiecesHold(operator, s, needle, o) && AffixListed(operator, needle))
  {
    if needle == "" {
    } else if operator.Contains? {
      forall term | term in LookupTerms(operator, needle, o)
        ensures IsIndexTerm(rt, s, o, term) <==> GramOf(s, LookupSize(needle, o), term)
      {
        GramListed(rt, s, needle, o, term);
      }
    } else {
      var term := if operator.StartsWith? then PrefixTerm(needle) else SuffixTerm(needle);
      assert LookupTerms(operator, needle, o) == [term];
      AffixTerm(rt, operator, s, needle, o, term);
    }
  }

  lemma GramListed(rt: Runtime, s: string, needle: string, o: TextOptions, term: string)
    requires LeastGram(o) <= |needle| && GramOf(needle, LookupSize(needle, o), term)
    ensures IsIndexTerm(rt, s, o, term) <==> GramOf(s, LookupSize(needle, o), term)
  {
    var size := LookupSize(needle, o);
    assert term[0] == 'g' && |term| == 5 + size;
    forall x: string ensures term != PrefixTerm(x) && term != SuffixTerm(x) && term != TokenTerm(x) {
      assert PrefixTerm(x)[0] == 'p' && SuffixTerm(x)[0] == 's' && TokenTerm(x)[0] == 't';
    }
    forall n: nat | GramOf(s, n, term) ensures n == size && size <= |s| {
      var i :| 0 <= i <= |s| - n && term == GramTerm(Slice(s, i, n));
      assert |term| == 5 + n;
    }
  }

  lemma AffixTerm(rt: Runtime, operator: Operator, s: string, needle: string, o: TextOptions, term: string)
    requires needle != "" && (operator.StartsWith? || operator.EndsWith?)
    requires term == if operator.StartsWith? then PrefixTerm(needle) else SuffixTerm(needle)
    ensures IsIndexTerm(rt, s, o, term) <==> TextHolds(operator, s, needle) && |needle| <= LONGEST_AFFIX
  {
    assert term[0] == if operator.StartsWith? then 'p' else 's';
    assert |term| == 7 + |needle| && term[7..] == needle;
    forall x: string ensures term != GramTerm(x) && term != TokenTerm(x) {
      assert GramTerm(x)[0] == 'g' && TokenTerm(x)[0] == 't';
    }
    forall n: nat | 1 <= n <= |s| && AffixTermOf(s, n, term) ensures n == |needle| && TextHolds(operator, s, needle) {
      AffixIs(operator, s, needle, n, term);
    }
    if TextHolds(operator, s, needle) {
      assert AffixTermOf(s, |needle|, term);
    }
  }

  lemma AffixIs(operator: Operator, s: string, needle: string, n: nat, term: string)
    requires n <= |s| && AffixTermOf(s, n, term) && (operator.StartsWith? || operator.EndsWith?)
    requires term == if operator.StartsWith? then PrefixTerm(needle) else SuffixTerm(needle)
    ensures n == |needle| && TextHolds(operator, s, needle)
  {
    assert PrefixTerm(s[..n])[0] == 'p' && SuffixTerm(s[|s| - n..])[0] == 's';
    assert PrefixTerm(s[..n])[7..] == s[..n] && SuffixTerm(s[|s| - n..])[7..] == s[|s| - n..];
    assert term[0] == (if operator.StartsWith? then 'p' else 's') && term[7..] == needle;
  }

  // Normal forms.

  /** Where the operator holds of a text and the needle, the looked-up pieces hold of their normal forms. */
  ghost predicate FormsKeep(rt: Runtime, operator: Operator, needle: string, o: TextOptions) {
    forall s: string | TextHolds(operator, s, needle) ::
      PiecesHold(operator, rt.normalize(s, o.caseSensitive), rt.normalize(needle, o.caseSensitive), o)
  }

  function Folded(fold: char -> string, s: string): string {
    if s == "" then "" else fold(s[0]) + Folded(fold, s[1..])
  }

  lemma {:induction false} FoldedConcat(fold: char -> string, a: string, b: string)
    ensures Folded(fold, a + b) == Folded(fold, a) + Folded(fold, b)
    decreases |a|
  {
    if a == "" {
      assert a + b == b;
    } else {
      assert (a + b)[0] == a[0] && (a + b)[1..] == a[1..] + b;
      FoldedConcat(fold, a[1..], b);
    }
  }

  /** A text operator that holds of two texts holds of their character-wise foldings. */
  lemma FoldedHolds(fold: char -> string, operator: Operator, s: string, needle: string)
    requires TextHolds(operator, s, needle)
    ensures TextHolds(operator, Folded(fold, s), Folded(fold, needle))
  {
    var i := Occurrence(operator, s, needle);
    var a, b := s[..i], s[i + |needle|..];
    assert s == a + needle + b;
    FoldedConcat(fold, a + needle, b);
    FoldedConcat(fold, a, needle);
    var na, nn, nb := Folded(fold, a), Folded(fold, needle), Folded(fold, b);
    assert Folded(fold, s) == na + nn + nb;
    assert OccursAt(Folded(fold, s), nn, |na|);
  }

  /** Normalising character by character is enough for every needle. */
  lemma FoldingKeepsForms(rt: Runtime, fold: char -> string, operator: Operator, needle: string, o: TextOptions)
    requires forall s :: rt.normalize(s, o.caseSensitive) == Folded(fold, s)
    ensures FormsKeep(rt, operator, needle, o)
  {
    forall s: string | TextHolds(operator, s, needle)
      ensures PiecesHold(operator, rt.normalize(s, o.caseSensitive), rt.normalize(needle, o.caseSensitive), o)
    {
      FoldedHolds(fold, operator, s, needle);
      HoldsByPieces(operator, Folded(fold, s), Folded(fold, needle), o);
    }
  }

  /** Composition is not character by character: a text starts with `e`, its normal form with another letter. */
  lemma CompositionLosesPrefix(o: TextOptions)
    ensures HasPrefix(DECOMPOSED, "e") && !FormsKeep(SampleRuntime(), StartsWith, "e", o)
    ensures PrefixTerm("e") in LookupTerms(StartsWith, SampleRuntime().normalize("e", o.caseSensitive), o)
    ensures !IsIndexTerm(SampleRuntime(), SampleRuntime().normalize(DECOMPOSED, o.caseSensitive), o, PrefixTerm("e"))
  {
    assert DECOMPOSED[0] == 'e' && COMPOSED[0] == '\U{e9}' && |DECOMPOSED| == 6;
    assert DECOMPOSED[..1] == "e";
    assert !HasPrefix(COMPOSED, "e");
    var rt := SampleRuntime();
    assert rt.normalize(DECOMPOSED, o.caseSensitive) == COMPOSED && rt.normalize("e", o.caseSensitive) == "e";
    assert TextHolds(StartsWith, DECOMPOSED, "e") && !PiecesHold(StartsWith, COMPOSED, "e", o);
    AffixTerm(rt, StartsWith, COMPOSED, "e", o, PrefixTerm("e"));
  }
}
