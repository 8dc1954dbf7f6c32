/** Parsing arithmetic: `+` and `-` below `*` and `/`, left associative, with negative literals and parentheses. */
module GvqlValueParser {
  import opened EncodedGraph
  import opened Folding
  import opened GvqlConditionParser

  /** Arithmetic over operand texts. */
  datatype Value = Operand(text: string) | Binary(operator: char, left: Value, right: Value)

  const ADDITIVE := ['+', '-']
  const MULTIPLICATIVE := ['*', '/']

  /** A sign follows the start, an opening bracket or another operator. */
  predicate BeforeSign(c: char) {
    c in ['(', '[', '+', '-', '*', '/']
  }

  /** `isUnarySign`: looks back over spaces from position `i`. */
  predicate UnarySign(s: string, i: nat)
    requires i <= |s|
  {
    if i == 0 then true else if IsSpace(s[i - 1]) then UnarySign(s, i - 1) else BeforeSign(s[i - 1])
  }

  /** A binary operator outside quotes and brackets. */
  predicate TopOperator(s: string, i: nat, operators: seq<char>) {
    && i < |s| && At(s, i).quote.None? && At(s, i).depth == At(s, |s|).depth && s[i] in operators
    && (s[i] in ADDITIVE ==> !UnarySign(s, i))
  }

  /** The last one before `n`. */
  function LastOperator(s: string, operators: seq<char>, n: nat): Option<nat>
    requires n <= |s|
  {
    if n == 0 then None else if TopOperator(s, n - 1, operators) then Some(n - 1) else LastOperator(s, operators, n - 1)
  }

  lemma {:induction false} LastOperatorIs(s: string, operators: seq<char>, n: nat)
    requires n <= |s|
    ensures LastOperator(s, operators, n).Some? ==>
              var i := LastOperator(s, operators, n).value;
              i < n && TopOperator(s, i, operators) && forall j | i < j < n :: !TopOperator(s, j, operators)
    ensures LastOperator(s, operators, n).None? ==> forall j | 0 <= j < n :: !TopOperator(s, j, operators)
    decreases n
  {
    if n > 0 {
      LastOperatorIs(s, operators, n - 1);
    }
  }

  /** `parseValueExpression`, down to its operands; a CASE text is left to its own parser. */
  function ParseValue(input: string): Option<Value>
    decreases |input|
  {
    var t := Strip(Trim(input));
    if t == "" then None
    else if KeywordAt(t, 0, "CASE") then Some(Operand(t))
    else
      var additive := LastOperator(t, ADDITIVE, |t|);
      LastOperatorIs(t, ADDITIVE, |t|);
      if additive.Some? then Split(t, additive.value, ParseValue(t[..additive.value]),
                                   ParseValue(t[additive.value + 1..]))
      else
        var multiplicative := LastOperator(t, MULTIPLICATIVE, |t|);
        LastOperatorIs(t, MULTIPLICATIVE, |t|);
        if multiplicative.Some? then
          Split(t, multiplicative.value, ParseValue(t[..multiplicative.value]),
                ParseValue(t[multiplicative.value + 1..]))
        else Some(Operand(t))
  }

  function Split(t: string, i: nat, l: Option<Value>, r: Option<Value>): Option<Value>
    requires i < |t|
  {
    if l.None? || r.None? then None else Some(Binary(t[i], l.value, r.value))
  }

  // The source's loops.

  method IsUnarySign(s: string, i: nat) returns (unary: bool)
    requires i <= |s|
    ensures unary == UnarySign(s, i)
  {
    var cursor := i;
    while cursor > 0 && IsSpace(s[cursor - 1])
      invariant 0 <= cursor <= i && UnarySign(s, i) == UnarySign(s, cursor)
    {
      cursor := cursor - 1;
    }
    unary := cursor == 0 || BeforeSign(s[cursor - 1]);
  }

  /** `findTopLevelArithmeticOperator`: from the right, counting closing brackets. */
  method FindOperator(s: string, operators: seq<char>) returns (found: Option<nat>)
    requires forall c | c in operators :: c in ['+', '-', '*', '/']
    ensures found == LastOperator(s, operators, |s|)
  {
    var depth := 0;
    var i := |s|;
    while i > 0
      invariant 0 <= i <= |s| && depth == At(s, i).depth - At(s, |s|).depth
      invariant LastOperator(s, operators, |s|) == LastOperator(s, operators, i)
    {
      i := i - 1;
      AtNext(s, i);
      var quoted := IsQuoted(s, i);
      if !quoted {
        if s[i] == ')' || s[i] == ']' {
          depth := depth + 1;
        } else if s[i] == '(' || s[i] == '[' {
          depth := depth - 1;
        } else if depth == 0 && s[i] in operators {
          var unary := false;
          if s[i] == '+' || s[i] == '-' {
            unary := IsUnarySign(s, i);
          }
          if !unary {
            return Some(i);
          }
        }
      }
    }
    found := None;
  }

  // Written arithmetic.

  /** Arithmetic as it may be written: white space or none around operators, and parentheses also where not needed. */
  datatype Formula =
    | Atom(text: string)
    | Calc(left: Formula, before: string, operator: char, after: string, right: Formula)
    | Paren(before: string, inner: Formula, after: string)

  function LevelOf(o: char): nat {
    if o == '+' || o == '-' then 1 else 2
  }

  function Level(v: Formula): nat {
    if v.Calc? then LevelOf(v.operator) else 3
  }

  function Text(v: Formula): string {
    match v
    case Atom(text) => text
    case Calc(l, before, o, after, r) => Text(l) + (before + [o] + after) + Text(r)
    case Paren(before, inner, after) => "(" + (before + Text(inner) + after) + ")"
  }

  function Meaning(v: Formula): Value {
    match v
    case Atom(text) => Operand(text)
    case Calc(l, _, o, _, r) => Binary(o, Meaning(l), Meaning(r))
    case Paren(_, inner, _) => Meaning(inner)
  }

  predicate MaybeGap(g: string) {
    g == "" || IsGap(g)
  }

  predicate IsOperator(o: char) {
    o == '+' || o == '-' || o == '*' || o == '/'
  }

  ghost predicate NoOperator(w: string, operators: seq<char>) {
    forall i | 0 <= i < |w| :: !TopOperator(w, i, operators)
  }

  /** The text ends where an operand may end. */
  predicate Finished(w: string) {
    w != "" && !BeforeSign(w[|w| - 1])
  }

  /** An operand text the parser leaves alone, such as a path, a call, a quoted text or a signed number. */
  ghost predicate OperandOk(w: string) {
    && Segment(w) && Finished(w) && NoOperator(w, ADDITIVE) && NoOperator(w, MULTIPLICATIVE) &&
       !KeywordAt(w, 0, "CASE") && !Enclosed(w)
  }

  /** Properly written: `*` and `/` bind tighter than `+` and `-`, and both group to the left. */
  ghost predicate Written(v: Formula) {
    match v
    case Atom(w) => OperandOk(w)
    case Calc(l, before, o, after, r) =>
      && MaybeGap(before) && IsOperator(o) && MaybeGap(after)
      && Written(l) && Level(l) >= LevelOf(o) && Written(r) && Level(r) >= LevelOf(o) + 1
    case Paren(before, inner, after) => MaybeGap(before) && MaybeGap(after) && Written(inner)
  }

  // Operators in joined texts.

  lemma JoinerJoins(before: string, o: char, after: string)
    requires MaybeGap(before) && IsOperator(o) && MaybeGap(after)
    ensures var mid := before + [o] + after;
            IsJoiner(mid) && !IsWord(mid[0]) && mid[0] != '(' && (before == "" ==> mid[0] == o)
  {
    if before != "" {
      GapIsPlain(before);
    }
    if after != "" {
      GapIsPlain(after);
    }
    assert IsPlain([o]);
    PlainConcat(before, [o]);
    PlainConcat(before + [o], after);
  }

  /** Looking back stays inside a prefix. */
  lemma {:induction false} SignInPrefix(a: string, rest: string, i: nat)
    requires i <= |a|
    ensures UnarySign(a + rest, i) == UnarySign(a, i)
    decreases i
  {
    if i > 0 {
      assert (a + rest)[i - 1] == a[i - 1];
      SignInPrefix(a, rest, i - 1);
    }
  }

  /** Looking back passes over white space. */
  lemma {:induction false} SignOverGap(s: string, i: nat, g: string)
    requires MaybeGap(g) && |g| <= i <= |s| && s[i - |g|..i] == g
    ensures UnarySign(s, i) == UnarySign(s, i - |g|)
    decreases |g|
  {
    if g != "" {
      GapIsPlain(g);
      var front := g[..|g| - 1];
      assert s[i - 1] == g[|g| - 1];
      assert s[i - 1 - |front|..i - 1] == front;
      assert forall c | c in front :: c in g;
      SignOverGap(s, i - 1, front);
    }
  }

  /** Looking back from the right operand stops in it, or at the operator, which makes the sign unary either way. */
  lemma {:induction false} SignInSuffix(a: string, before: string, o: char, after: string, b: string, j: nat)
    requires MaybeGap(before) && IsOperator(o) && MaybeGap(after) && b != "" && !IsSpace(b[0]) && j <= |b|
    ensures UnarySign(a + (before + [o] + after) + b, |a| + |before| + 1 + |after| + j) == UnarySign(b, j)
    decreases j
  {
    var w, from := a + (before + [o] + after) + b, |a| + |before| + 1 + |after|;
    if j == 0 {
      assert w[from - |after|..from] == after;
      SignOverGap(w, from, after);
      assert w[|a| + |before|] == o;
    } else {
      assert w[from + j - 1] == b[j - 1];
      if IsSpace(b[j - 1]) {
        SignInSuffix(a, before, o, after, b, j - 1);
      }
    }
  }

  /** The joining operator is no sign: an operand ends before it. */
  lemma OperatorIsBinary(a: string, before: string, o: char, after: string, b: string)
    requires Tight(a) && Finished(a) && MaybeGap(before)
    ensures !UnarySign(a + (before + [o] + after) + b, |a| + |before|)
  {
    var w := a + (before + [o] + after) + b;
    assert w[|a|..|a| + |before|] == before;
    SignOverGap(w, |a| + |before|, before);
    assert w[|a| - 1] == a[|a| - 1];
  }

  /** Top-level operators of the whole are those of the parts and the joiner. */
  lemma TopOperatorJoined(a: string, before: string, o: char, after: string, b: string, i: nat, operators: seq<char>)
    requires Segment(a) && Finished(a) && MaybeGap(before) && IsOperator(o) && MaybeGap(after) && Segment(b)
    requires operators == ADDITIVE || operators == MULTIPLICATIVE
    requires i < |a| + |before| + 1 + |after| + |b|
    ensures TopOperator(a + (before + [o] + after) + b, i, operators) <==>
            (i < |a| && TopOperator(a, i, operators)) ||
            (i == |a| + |before| && o in operators) ||
            (i >= |a| + |before| + 1 + |after| && TopOperator(b, i - |a| - |before| - 1 - |after|, operators))
  {
    var mid := before + [o] + after;
    var w := a + mid + b;
    JoinerJoins(before, o, after);
    AtJoined(a, mid, b, i);
    AtJoined(a, mid, b, |w|);
    if i < |a| {
      assert w == a + (mid + b) && w[i] == a[i];
      SignInPrefix(a, mid + b, i);
    } else if i < |a| + |mid| {
      InMiddle(a, before, o, after, b, i, operators);
      OperatorIsBinary(a, before, o, after, b);
    } else {
      assert w[i] == b[i - |a| - |mid|];
      SignInSuffix(a, before, o, after, b, i - |a| - |mid|);
    }
  }

  lemma InMiddle(a: string, before: string, o: char, after: string, b: string, i: nat, operators: seq<char>)
    requires MaybeGap(before) && IsOperator(o) && MaybeGap(after) &&
             (operators == ADDITIVE || operators == MULTIPLICATIVE)
    requires |a| <= i < |a| + |before| + 1 + |after|
    ensures (a + (before + [o] + after) + b)[i] in operators <==> i == |a| + |before| && o in operators
  {
    var mid := before + [o] + after;
    assert (a + mid + b)[i] == mid[i - |a|];
    if i < |a| + |before| {
      GapIsPlain(before);
      assert mid[i - |a|] == before[i - |a|];
    } else if i > |a| + |before| {
      GapIsPlain(after);
      assert mid[i - |a|] == after[i - |a| - |before| - 1];
    }
  }

  lemma NoOperatorJoined(a: string, before: string, o: char, after: string, b: string, operators: seq<char>)
    requires Segment(a) && Finished(a) && MaybeGap(before) && IsOperator(o) && MaybeGap(after) && Segment(b)
    requires (operators == ADDITIVE || operators == MULTIPLICATIVE) && o !in operators
    requires NoOperator(a, operators) && NoOperator(b, operators)
    ensures NoOperator(a + (before + [o] + after) + b, operators)
  {
    var w := a + (before + [o] + after) + b;
    forall i | 0 <= i < |w| ensures !TopOperator(w, i, operators) {
      TopOperatorJoined(a, before, o, after, b, i, operators);
    }
  }

  lemma LastOperatorJoined(a: string, before: string, o: char, after: string, b: string, operators: seq<char>)
    requires Segment(a) && Finished(a) && MaybeGap(before) && MaybeGap(after) && Segment(b)
    requires (operators == ADDITIVE || operators == MULTIPLICATIVE) && o in operators && NoOperator(b, operators)
    ensures var w := a + (before + [o] + after) + b; LastOperator(w, operators, |w|) == Some(|a| + |before|)
  {
    var w := a + (before + [o] + after) + b;
    TopOperatorJoined(a, before, o, after, b, |a| + |before|, operators);
    forall i | |a| + |before| < i < |w| ensures !TopOperator(w, i, operators) {
      TopOperatorJoined(a, before, o, after, b, i, operators);
    }
    LastOperatorIs(w, operators, |w|);
  }

  lemma WrappedNoOperator(p: string, operators: seq<char>)
    requires ClosedText(p) && (operators == ADDITIVE || operators == MULTIPLICATIVE)
    ensures NoOperator("(" + p + ")", operators)
  {
    var w := "(" + p + ")";
    AtWrapped(p, |w|);
    forall i | 0 <= i < |w| ensures !TopOperator(w, i, operators) {
      AtWrapped(p, i);
    }
  }

  lemma NoCaseJoined(a: string, mid: string, b: string)
    requires a != "" && !KeywordAt(a, 0, "CASE") && IsJoiner(mid) && !IsWord(mid[0])
    ensures !KeywordAt(a + mid + b, 0, "CASE")
  {
    if KeywordAt(a + mid + b, 0, "CASE") {
      KeywordInPart(a, mid, b, 0, "CASE");
    }
  }

  lemma NoCaseWrapped(p: string)
    ensures !KeywordAt("(" + p + ")", 0, "CASE")
  {
    NoBracketKeyword("(" + p + ")", 0, "CASE");
  }

  // The round trip.

  /** What a written operand of the given level guarantees. */
  ghost predicate Part(w: string, level: nat) {
    forall u {:trigger Unfold(u)} | Unfold(u) ::
      && Segment(w) && Finished(w) && !KeywordAt(w, 0, "CASE")
      && (level >= 2 ==> NoOperator(w, ADDITIVE)) && (level >= 3 ==> NoOperator(w, MULTIPLICATIVE))
  }

  lemma PartIsTight(w: string, level: nat)
    requires Part(w, level)
    ensures Tight(w)
  {
    assert Unfold(true);
  }

  lemma PartAt(w: string, level: nat, lower: nat)
    requires Part(w, level) && lower <= level
    ensures Part(w, lower)
  {
  }

  lemma JoinedText(a: string, before: string, o: char, after: string, b: string)
    requires MaybeGap(before) && IsOperator(o) && MaybeGap(after) && Part(a, LevelOf(o)) && Part(b, LevelOf(o) + 1)
    ensures var w := a + (before + [o] + after) + b; Part(w, LevelOf(o)) && !Enclosed(w)
  {
    assert Unfold(true);
    var mid := before + [o] + after;
    JoinerJoins(before, o, after);
    JoinedIsSegment(a, mid, b);
    JoinedNotEnclosed(a, mid, b);
    NoCaseJoined(a, mid, b);
    if o in MULTIPLICATIVE {
      NoOperatorJoined(a, before, o, after, b, ADDITIVE);
    }
    assert (a + mid + b)[|a + mid + b| - 1] == b[|b| - 1];
  }

  lemma PartIsSegment(w: string, level: nat)
    requires Part(w, level)
    ensures Segment(w)
  {
    assert Unfold(true);
  }

  lemma ParenIsPart(inner: string)
    requires ClosedText(inner)
    ensures Part("(" + inner + ")", 3)
  {
    WrappedIsSegment(inner);
    WrappedNoOperator(inner, ADDITIVE);
    WrappedNoOperator(inner, MULTIPLICATIVE);
    NoCaseWrapped(inner);
  }

  lemma ParenText(g: string, p: string, h: string, level: nat)
    requires Part(p, level) && MaybeGap(g) && MaybeGap(h)
    ensures Part("(" + (g + p + h) + ")", 3) && Strip("(" + (g + p + h) + ")") == Strip(p)
  {
    PartIsSegment(p, level);
    InnerIsClosed(g, p, h);
    ParenIsPart(g + p + h);
    StripGroup(g, p, h);
  }

  lemma {:induction false} TextOk(v: Formula)
    requires Written(v)
    ensures Part(Text(v), Level(v)) && (v.Paren? || !Enclosed(Text(v)))
    decreases v
  {
    match v
    case Atom(_) =>
    case Calc(l, before, o, after, r) =>
      TextOk(l);
      TextOk(r);
      PartAt(Text(l), Level(l), LevelOf(o));
      PartAt(Text(r), Level(r), LevelOf(o) + 1);
      JoinedText(Text(l), before, o, after, Text(r));
    case Paren(before, inner, after) =>
      TextOk(inner);
      ParenText(before, Text(inner), after, Level(inner));
  }

  /** The text parses to the value. */
  ghost predicate ValueParsesTo(w: string, v: Value) {
    forall u {:trigger UnfoldAgain(u)} | UnfoldAgain(u) :: ParseValue(w) == Some(v)
  }

  lemma ParseSeesStripped(x: string, y: string)
    requires Strip(Trim(x)) == Strip(Trim(y))
    ensures ParseValue(x) == ParseValue(y)
  {
  }

  lemma SideValue(x: string, y: string, v: Value)
    requires ValueParsesTo(y, v) && Strip(Trim(x)) == Strip(Trim(y))
    ensures ValueParsesTo(x, v)
  {
    assert UnfoldAgain(true);
    ParseSeesStripped(x, y);
  }

  lemma NoneAtTopLevel(w: string, operators: seq<char>)
    requires NoOperator(w, operators)
    ensures LastOperator(w, operators, |w|).None?
  {
    LastOperatorIs(w, operators, |w|);
  }

  /** Where the text is split: a stripped text that is no CASE, and its last top-level operator of the lowest level. */
  ghost predicate SplitsAt(w: string, i: nat) {
    forall u {:trigger Unfold(u)} | Unfold(u) ::
      && w != "" && Strip(Trim(w)) == w && !KeywordAt(w, 0, "CASE") && i < |w|
      && (LastOperator(w, ADDITIVE, |w|) == Some(i) ||
          (LastOperator(w, ADDITIVE, |w|).None? && LastOperator(w, MULTIPLICATIVE, |w|) == Some(i)))
  }

  lemma JoinScans(a: string, before: string, o: char, after: string, b: string)
    requires MaybeGap(before) && IsOperator(o) && MaybeGap(after) && Part(a, LevelOf(o)) && Part(b, LevelOf(o) + 1)
    ensures SplitsAt(a + (before + [o] + after) + b, |a| + |before|)
  {
    assert Unfold(true);
    var w := a + (before + [o] + after) + b;
    JoinedText(a, before, o, after, b);
    StripsToItself(w);
    if o in ADDITIVE {
      LastOperatorJoined(a, before, o, after, b, ADDITIVE);
    } else {
      NoneAtTopLevel(w, ADDITIVE);
      LastOperatorJoined(a, before, o, after, b, MULTIPLICATIVE);
    }
  }

  lemma ParseSplit(w: string, i: nat, j: nat, o: char, l: Value, r: Value)
    requires SplitsAt(w, i) && j == i + 1 <= |w| && w[i] == o
    requires ValueParsesTo(w[..i], l) && ValueParsesTo(w[j..], r)
    ensures ValueParsesTo(w, Binary(o, l, r))
  {
    assert Unfold(true) && UnfoldAgain(true);
  }

  /** An operand parses with the white space around it. */
  lemma SpacedParses(x: string, w: string, g: string, v: Value)
    requires Tight(w) && MaybeGap(g) && (x == w + g || x == g + w) && ValueParsesTo(w, v)
    ensures ValueParsesTo(x, v)
  {
    TrimmedAlike(w, g);
    SideValue(x, w, v);
  }

  lemma SidesAre(w: string, i: nat, j: nat, a: string, before: string, o: char, after: string, b: string)
    requires w == a + (before + [o] + after) + b && i == |a| + |before| && j == i + 1
    ensures j <= |w| && w[i] == o && w[..i] == a + before && w[j..] == after + b
  {
    Sides(a, before, [o], after, b);
  }

  lemma SidesHold(w: string, i: nat, j: nat, a: string, before: string, o: char, after: string, b: string, l: Value,
                  r: Value)
    requires Tight(a) && MaybeGap(before) && MaybeGap(after) && Tight(b)
    requires ValueParsesTo(a, l) && ValueParsesTo(b, r)
    requires w == a + (before + [o] + after) + b && i == |a| + |before| && j == i + 1
    ensures j <= |w| && w[i] == o && ValueParsesTo(w[..i], l) && ValueParsesTo(w[j..], r)
  {
    SidesAre(w, i, j, a, before, o, after, b);
    SpacedParses(w[..i], a, before, l);
    SpacedParses(w[j..], b, after, r);
  }

  lemma JoinParses(a: string, before: string, o: char, after: string, b: string, l: Value, r: Value)
    requires MaybeGap(before) && IsOperator(o) && MaybeGap(after) && Part(a, LevelOf(o)) && Part(b, LevelOf(o) + 1)
    requires ValueParsesTo(a, l) && ValueParsesTo(b, r)
    ensures ValueParsesTo(a + (before + [o] + after) + b, Binary(o, l, r))
  {
    var w, i, j := a + (before + [o] + after) + b, |a| + |before|, |a| + |before| + 1;
    PartIsTight(a, LevelOf(o));
    PartIsTight(b, LevelOf(o) + 1);
    JoinScans(a, before, o, after, b);
    SidesHold(w, i, j, a, before, o, after, b, l, r);
    ParseSplit(w, i, j, o, l, r);
  }

  lemma AtomParses(w: string)
    requires OperandOk(w)
    ensures ValueParsesTo(w, Operand(w))
  {
    StripsToItself(w);
    NoneAtTopLevel(w, ADDITIVE);
    NoneAtTopLevel(w, MULTIPLICATIVE);
  }

  lemma ParenParses(g: string, p: string, h: string, level: nat, v: Value)
    requires Part(p, level) && MaybeGap(g) && MaybeGap(h) && ValueParsesTo(p, v)
    ensures ValueParsesTo("(" + (g + p + h) + ")", v)
  {
    var w := "(" + (g + p + h) + ")";
    ParenText(g, p, h, level);
    PartIsTight(w, 3);
    PartIsTight(p, level);
    TrimTight(w);
    TrimTight(p);
    SideValue(w, p, v);
  }

  lemma {:induction false} FormulaParses(v: Formula)
    requires Written(v)
    ensures ValueParsesTo(Text(v), Meaning(v))
    decreases v
  {
    match v
    case Atom(w) => AtomParses(w);
    case Calc(l, before, o, after, r) =>
      TextOk(l);
      TextOk(r);
      FormulaParses(l);
      FormulaParses(r);
      PartAt(Text(l), Level(l), LevelOf(o));
      PartAt(Text(r), Level(r), LevelOf(o) + 1);
      JoinParses(Text(l), before, o, after, Text(r), Meaning(l), Meaning(r));
    case Paren(before, inner, after) =>
      TextOk(inner);
      FormulaParses(inner);
      ParenParses(before, Text(inner), after, Level(inner), Meaning(inner));
  }

  /** Parsing written arithmetic gives what is written, negative literals, white space and parentheses included. */
  lemma ParsePrintedValue(v: Formula)
    requires Written(v)
    ensures ParseValue(Text(v)) == Some(Meaning(v))
  {
    FormulaParses(v);
    assert UnfoldAgain(true);
  }

  /** A negative number is an operand text: its sign is unary. */
  lemma NegativeNumberOk(digits: string)
    requires digits != "" && forall c | c in digits :: '0' <= c <= '9' || c == '.'
    ensures OperandOk("-" + digits)
  {
    var w := "-" + digits;
    forall c | c in w ensures !IsQuote(c) && c !in ['(', ')', '[', ']', '\\'] {
      assert c == '-' || c in digits;
    }
    forall i | 0 <= i <= |w| ensures At(w, i) == NEUTRAL {
      assert forall c | c in w[..i] :: c in w;
      RunPlain(NEUTRAL, None, w[..i]);
    }
    assert w[|w| - 1] in digits;
    forall i | 0 <= i < |w| ensures !TopOperator(w, i, ADDITIVE) && !TopOperator(w, i, MULTIPLICATIVE) {
      if i > 0 {
        assert w[i] == digits[i - 1] && digits[i - 1] in digits;
      }
    }
    assert w[0] == '-';
    if KeywordAt(w, 0, "CASE") {
      KeywordStarts(w, "CASE");
    }
  }

  lemma KeywordStarts(s: string, keyword: string)
    requires KeywordAt(s, 0, keyword) && keyword != ""
    ensures Upper(s[0]) == keyword[0]
  {
    assert Upper(s[0 + 0]) == keyword[0];
  }
}
