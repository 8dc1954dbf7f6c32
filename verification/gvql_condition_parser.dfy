/** Parsing AND, OR, NOT and parentheses around predicate texts; predicates themselves stay opaque texts here. */
module GvqlConditionParser {
  import opened EncodedGraph
  import opened Folding

  /** What a scan knows before a character: the open quote, the depth of all brackets, the depth of round ones. */
  datatype Scan = Scan(quote: Option<char>, depth: int, parens: int)

  const NEUTRAL := Scan(None, 0, 0)

  predicate IsQuote(c: char) {
    c == '"' || c == '\''
  }

  function Next(s: Scan, prev: Option<char>, c: char): Scan {
    if IsQuote(c) && prev != Some('\\') then
      s.(quote := if s.quote == Some(c) then None else if s.quote.None? then Some(c) else s.quote)
    else if s.quote.Some? then s
    else if c == '(' then Scan(None, s.depth + 1, s.parens + 1)
    else if c == ')' then Scan(None, s.depth - 1, s.parens - 1)
    else if c == '[' then s.(depth := s.depth + 1)
    else if c == ']' then s.(depth := s.depth - 1)
    else s
  }

  function LastOf(prev: Option<char>, s: string): Option<char> {
    if s == "" then prev else Some(s[|s| - 1])
  }

  function Run(st: Scan, prev: Option<char>, s: string): Scan {
    if s == "" then st
    else
      var front := s[..|s| - 1];
      Next(Run(st, prev, front), LastOf(prev, front), s[|s| - 1])
  }

  /** The scan state before position `i`. */
  function At(s: string, i: nat): Scan
    requires i <= |s|
  {
    Run(NEUTRAL, None, s[..i])
  }

  predicate IsSpace(c: char) {
    c == ' ' || c == '\t' || c == '\n' || c == '\r'
  }

  predicate IsWord(c: char) {
    'a' <= c <= 'z' || 'A' <= c <= 'Z' || '0' <= c <= '9' || c == '_'
  }

  function Upper(c: char): char {
    if 'a' <= c <= 'z' then 'A' + (c - 'a') else c
  }

  /** The keyword stands here in any case, as a word of its own. */
  predicate KeywordAt(s: string, i: nat, keyword: string) {
    && i + |keyword| <= |s|
    && (forall k | 0 <= k < |keyword| :: Upper(s[i + k]) == keyword[k])
    && (i == 0 || !IsWord(s[i - 1]))
    && (i + |keyword| == |s| || !IsWord(s[i + |keyword|]))
  }

  predicate TopKeyword(s: string, i: nat, keyword: string) {
    i < |s| && At(s, i) .quote.None? && At(s, i).depth == 0 && KeywordAt(s, i, keyword)
  }

  /** The last top-level occurrence before `n`. */
  function LastTop(s: string, keyword: string, n: nat): Option<nat>
    requires n <= |s|
  {
    if n == 0 then None else if TopKeyword(s, n - 1, keyword) then Some(n - 1) else LastTop(s, keyword, n - 1)
  }

  function TrimStart(s: string): string {
    if s != "" && IsSpace(s[0]) then TrimStart(s[1..]) else s
  }

  function TrimEnd(s: string): string {
    if s != "" && IsSpace(s[|s| - 1]) then TrimEnd(s[..|s| - 1]) else s
  }

  function Trim(s: string): (r: string)
    ensures |r| <= |s|
  {
    Shorter(s);
    TrimEnd(TrimStart(s))
  }

  lemma {:induction false} ShorterStart(s: string)
    ensures |TrimStart(s)| <= |s|
    decreases |s|
  {
    if s != "" && IsSpace(s[0]) {
      ShorterStart(s[1..]);
    }
  }

  lemma {:induction false} ShorterEnd(s: string)
    ensures |TrimEnd(s)| <= |s|
    decreases |s|
  {
    if s != "" && IsSpace(s[|s| - 1]) {
      ShorterEnd(s[..|s| - 1]);
    }
  }

  lemma Shorter(s: string)
    ensures |TrimEnd(TrimStart(s))| <= |s|
  {
    ShorterStart(s);
    ShorterEnd(TrimStart(s));
  }

  /** `outerParenthesesEnclose` from position `i`: the first return to depth zero is at the end. */
  predicate EnclosesFrom(s: string, i: nat)
    requires i <= |s|
    decreases |s| - i
  {
    if i == |s| then false
    else if At(s, i).quote.Some? then EnclosesFrom(s, i + 1)
    else if At(s, i + 1).parens == 0 then i == |s| - 1
    else EnclosesFrom(s, i + 1)
  }

  predicate Enclosed(s: string) {
    |s| >= 2 && s[0] == '(' && s[|s| - 1] == ')' && EnclosesFrom(s, 0)
  }

  /** `stripOuterParentheses`. */
  function Strip(s: string): (r: string)
    ensures |r| <= |s|
    decreases |s|
  {
    if Enclosed(s) then Strip(Trim(s[1..|s| - 1])) else s
  }

  /** A condition over predicate texts. */
  datatype Tree = Leaf(text: string) | Not(negated: Tree) | And(left: Tree, right: Tree) | Or(left: Tree, right: Tree)

  /** `parseBooleanExpression`; `None` is the error for an empty operand. Every recursive call is on a shorter text. */
  function Parse(input: string): Option<Tree>
    decreases |input|
  {
    var t := Strip(Trim(input));
    if t == "" then None
    else
      var or := LastTop(t, "OR", |t|);
      if or.Some? then
        LastTopIs(t, "OR", |t|);
        Combined(Parse(t[..or.value]), Parse(t[or.value + 2..]), (l, r) => Or(l, r))
      else
        var and := LastTop(t, "AND", |t|);
        if and.Some? then
          LastTopIs(t, "AND", |t|);
          Combined(Parse(t[..and.value]), Parse(t[and.value + 3..]), (l, r) => And(l, r))
        else if KeywordAt(t, 0, "NOT") then
          var n := Parse(t[3..]);
          if n.Some? then Some(Not(n.value)) else None
        else Some(Leaf(t))
  }

  function Combined(l: Option<Tree>, r: Option<Tree>, join: (Tree, Tree) -> Tree): Option<Tree> {
    if l.None? || r.None? then None else Some(join(l.value, r.value))
  }

  lemma {:induction false} LastTopIs(s: string, keyword: string, n: nat)
    requires n <= |s|
    ensures LastTop(s, keyword, n).Some? ==>
              var i := LastTop(s, keyword, n).value;
              i < n && TopKeyword(s, i, keyword) && forall j | i < j < n :: !TopKeyword(s, j, keyword)
    ensures LastTop(s, keyword, n).None? ==> forall j | 0 <= j < n :: !TopKeyword(s, j, keyword)
    decreases n
  {
    if n > 0 {
      LastTopIs(s, keyword, n - 1);
    }
  }

  // The source's scanning loops.

  /** `isQuoted`. */
  method IsQuoted(s: string, i: nat) returns (quoted: bool)
    requires i <= |s|
    ensures quoted == At(s, i).quote.Some?
  {
    var quote: Option<char> := None;
    for cursor := 0 to i
      invariant quote == At(s, cursor).quote
    {
      AtNext(s, cursor);
      var c := s[cursor];
      if IsQuote(c) && (cursor == 0 || s[cursor - 1] != '\\') {
        quote := if quote == Some(c) then None else if quote.None? then Some(c) else quote;
      }
    }
    quoted := quote.Some?;
  }

  lemma AtNext(s: string, i: nat)
    requires i < |s|
    ensures At(s, i + 1) == Next(At(s, i), if i == 0 then None else Some(s[i - 1]), s[i])
  {
    assert s[..i + 1][..i] == s[..i];
    if i > 0 {
      assert s[..i][i - 1] == s[i - 1];
    }
  }

  /** `findTopLevelLogicalOperator`: skips over the keyword it has found. */
  method FindTopLevel(s: string, keyword: string) returns (found: Option<nat>)
    requires keyword != "" && forall c | c in keyword :: 'A' <= c <= 'Z'
    ensures found == LastTop(s, keyword, |s|)
  {
    var depth := 0;
    found := None;
    var i := 0;
    while i < |s|
      invariant i <= |s| && depth == At(s, i).depth
      invariant found == LastTop(s, keyword, i)
    {
      AtNext(s, i);
      var quoted := IsQuoted(s, i);
      if !quoted {
        if s[i] == '(' || s[i] == '[' {
          depth := depth + 1;
        } else if s[i] == ')' || s[i] == ']' {
          depth := depth - 1;
        } else if depth == 0 && KeywordAt(s, i, keyword) {
          found := Some(i);
          SkipKeyword(s, i, keyword);
          i := i + |keyword| - 1;
        }
      }
      NoBracketKeyword(s, i, keyword);
      AtNext(s, i);
      i := i + 1;
    }
  }

  lemma NoBracketKeyword(s: string, i: nat, keyword: string)
    requires i < |s| && keyword != "" && forall c | c in keyword :: 'A' <= c <= 'Z'
    ensures s[i] in ['(', ')', '[', ']'] ==> !KeywordAt(s, i, keyword)
  {
    assert keyword[0] in keyword;
    if KeywordAt(s, i, keyword) {
      assert Upper(s[i + 0]) == keyword[0];
    }
  }

  /** Inside a keyword the scan does not change and no other keyword starts. */
  lemma {:induction false} SkipKeyword(s: string, i: nat, keyword: string)
    requires TopKeyword(s, i, keyword) && keyword != "" && forall c | c in keyword :: 'A' <= c <= 'Z'
    ensures At(s, i + |keyword| - 1).depth == 0 && At(s, i + |keyword|) == At(s, i)
    ensures LastTop(s, keyword, i + |keyword|) == Some(i)
  {
    InsideKeyword(s, i, keyword, |keyword|);
    InsideKeyword(s, i, keyword, |keyword| - 1);
    assert LastTop(s, keyword, i + 1) == Some(i);
  }

  lemma {:induction false} InsideKeyword(s: string, i: nat, keyword: string, k: nat)
    requires TopKeyword(s, i, keyword) && k <= |keyword| && forall c | c in keyword :: 'A' <= c <= 'Z'
    ensures At(s, i + k) == At(s, i)
    ensures k > 0 ==> LastTop(s, keyword, i + k) == Some(i)
    decreases k
  {
    if k > 0 {
      InsideKeyword(s, i, keyword, k - 1);
      AtNext(s, i + k - 1);
      assert keyword[k - 1] in keyword;
      assert Upper(s[i + (k - 1)]) == keyword[k - 1];
      if k > 1 {
        assert keyword[k - 2] in keyword;
        assert Upper(s[i + (k - 2)]) == keyword[k - 2];
        assert IsWord(s[i + k - 2]);
      }
    }
  }

  // Written conditions.

  /** White space, said without the parser's own test. */
  predicate IsGap(g: string) {
    g != "" && forall c | c in g :: c in [' ', '\t', '\n', '\r']
  }

  /** The word with each letter in either case. */
  predicate IsSpelling(word: string, upper: string, lower: string)
    requires |upper| == |lower|
  {
    |word| == |upper| && forall k | 0 <= k < |word| :: word[k] == upper[k] || word[k] == lower[k]
  }

  /**
   * A condition as it may be written: connectives in any spelling with any white space around them, and parentheses
   * also where they are not needed.
   */
  datatype Phrase =
    | Plain(text: string)
    | Negated(word: string, after: string, operand: Phrase)
    | Both(left: Phrase, before: string, word: string, after: string, right: Phrase)
    | Either(left: Phrase, before: string, word: string, after: string, right: Phrase)
    | Group(before: string, inner: Phrase, after: string)

  function Level(t: Phrase): nat {
    match t
    case Either(_, _, _, _, _) => 1
    case Both(_, _, _, _, _) => 2
    case Negated(_, _, _) => 3
    case _ => 4
  }

  function Text(t: Phrase): string {
    match t
    case Plain(text) => text
    case Negated(word, after, operand) => "" + (word + after) + Text(operand)
    case Both(l, before, word, after, r) => Text(l) + (before + word + after) + Text(r)
    case Either(l, before, word, after, r) => Text(l) + (before + word + after) + Text(r)
    case Group(before, inner, after) => "(" + (before + Text(inner) + after) + ")"
  }

  function Meaning(t: Phrase): Tree {
    match t
    case Plain(text) => Leaf(text)
    case Negated(_, _, operand) => Not(Meaning(operand))
    case Both(l, _, _, _, r) => And(Meaning(l), Meaning(r))
    case Either(l, _, _, _, r) => Or(Meaning(l), Meaning(r))
    case Group(_, inner, _) => Meaning(inner)
  }

  /** A text that stands on its own: trimmed, quotes and brackets closed, never below its own depth. */
  ghost predicate Segment(w: string) {
    Tight(w) && ClosedText(w)
  }

  predicate Tight(w: string) {
    w != "" && !IsSpace(w[0]) && !IsSpace(w[|w| - 1])
  }

  ghost predicate ClosedText(w: string) {
    At(w, |w|) == NEUTRAL && forall i | 0 <= i <= |w| :: At(w, i).depth >= 0 && At(w, i).parens >= 0
  }

  ghost predicate NoTop(w: string, keyword: string) {
    forall i | 0 <= i < |w| :: !TopKeyword(w, i, keyword)
  }

  /** A predicate text the parser leaves alone. */
  ghost predicate LeafOk(w: string) {
    Segment(w) && NoTop(w, "OR") && NoTop(w, "AND") && !KeywordAt(w, 0, "NOT") && !Enclosed(w)
  }

  /** Properly written: NOT binds tighter than AND, AND than OR, and both group to the left. */
  ghost predicate Written(t: Phrase) {
    match t
    case Plain(w) => LeafOk(w)
    case Negated(word, after, operand) =>
      IsSpelling(word, "NOT", "not") && IsGap(after) && Written(operand) && Level(operand) >= 3
    case Both(l, before, word, after, r) =>
      && IsGap(before) && IsSpelling(word, "AND", "and") && IsGap(after)
      && Written(l) && Level(l) >= 2 && Written(r) && Level(r) >= 3
    case Either(l, before, word, after, r) =>
      && IsGap(before) && IsSpelling(word, "OR", "or") && IsGap(after)
      && Written(l) && Written(r) && Level(r) >= 2
    case Group(before, inner, after) =>
      (before == "" || IsGap(before)) && (after == "" || IsGap(after)) && Written(inner)
  }

  // Scanning composed texts.

  lemma {:induction false} RunConcat(st: Scan, prev: Option<char>, a: string, b: string)
    ensures Run(st, prev, a + b) == Run(Run(st, prev, a), LastOf(prev, a), b)
    decreases |b|
  {
    if b == "" {
      assert a + b == a;
    } else {
      var front := b[..|b| - 1];
      assert (a + b)[..|a + b| - 1] == a + front;
      RunConcat(st, prev, a, front);
      assert LastOf(prev, a + front) == LastOf(LastOf(prev, a), front);
    }
  }

  /** What stands before matters only if it is a backslash. */
  lemma {:induction false} RunPrevious(st: Scan, c: char, s: string)
    requires c != '\\'
    ensures Run(st, Some(c), s) == Run(st, None, s)
    decreases |s|
  {
    if s != "" {
      RunPrevious(st, c, s[..|s| - 1]);
    }
  }

  predicate IsPlain(s: string) {
    forall c | c in s :: !IsQuote(c) && c !in ['(', ')', '[', ']', '\\']
  }

  lemma {:induction false} RunPlain(st: Scan, prev: Option<char>, s: string)
    requires IsPlain(s)
    ensures Run(st, prev, s) == st
    decreases |s|
  {
    if s != "" {
      assert s[|s| - 1] in s;
      RunPlain(st, prev, s[..|s| - 1]);
    }
  }

  function Shifted(st: Scan): Scan {
    Scan(st.quote, st.depth + 1, st.parens + 1)
  }

  lemma {:induction false} RunShifted(st: Scan, prev: Option<char>, s: string)
    ensures Run(Shifted(st), prev, s) == Shifted(Run(st, prev, s))
    decreases |s|
  {
    if s != "" {
      RunShifted(st, prev, s[..|s| - 1]);
    }
  }

  /** A joiner: plain text. */
  predicate IsJoiner(mid: string) {
    mid != "" && IsPlain(mid)
  }

  /** Scan states in `a + mid + b` are those of the parts. */
  lemma AtJoined(a: string, mid: string, b: string, i: nat)
    requires IsJoiner(mid) && At(a, |a|) == NEUTRAL && i <= |a + mid + b|
    ensures At(a + mid + b, i) ==
            if i <= |a| then At(a, i) else if i <= |a| + |mid| then NEUTRAL else At(b, i - |a| - |mid|)
  {
    var w := a + mid + b;
    if i <= |a| {
      assert w[..i] == a[..i];
    } else if i <= |a| + |mid| {
      var part := mid[..i - |a|];
      assert w[..i] == a + part;
      assert a[..|a|] == a;
      RunConcat(NEUTRAL, None, a, part);
      assert IsPlain(part);
      RunPlain(NEUTRAL, LastOf(None, a), part);
    } else {
      var part := b[..i - |a| - |mid|];
      assert w[..i] == a + mid + part;
      assert a[..|a|] == a;
      RunConcat(NEUTRAL, None, a + mid, part);
      RunConcat(NEUTRAL, None, a, mid);
      RunPlain(NEUTRAL, LastOf(None, a), mid);
      assert LastOf(None, a + mid) == Some(mid[|mid| - 1]);
      RunPrevious(NEUTRAL, mid[|mid| - 1], part);
    }
  }

  lemma JoinedIsSegment(a: string, mid: string, b: string)
    requires IsJoiner(mid) && (Segment(a) || (a == "" && !IsSpace(mid[0]))) && Segment(b)
    ensures Segment(a + mid + b)
  {
    var w := a + mid + b;
    assert At(a, |a|) == NEUTRAL;
    forall i | 0 <= i <= |w| ensures At(w, i).depth >= 0 && At(w, i).parens >= 0 {
      AtJoined(a, mid, b, i);
    }
    AtJoined(a, mid, b, |w|);
    assert w[|w| - 1] == b[|b| - 1];
    assert a == "" ==> w[0] == mid[0];
  }

  lemma KeywordIsWord(w: string, i: nat, keyword: string, k: nat)
    requires KeywordAt(w, i, keyword) && k < |keyword| && forall c | c in keyword :: 'A' <= c <= 'Z'
    ensures IsWord(w[i + k])
  {
    assert keyword[k] in keyword && Upper(w[i + k]) == keyword[k];
  }

  /** A keyword of letters lies in one part. */
  lemma KeywordInPart(a: string, mid: string, b: string, i: nat, keyword: string)
    requires IsJoiner(mid) && (a != "" ==> !IsWord(mid[0])) && keyword != "" && forall c | c in keyword ::
             'A' <= c <= 'Z'
    requires i < |a + mid + b| && KeywordAt(a + mid + b, i, keyword)
    ensures i < |a| ==> KeywordAt(a, i, keyword)
    ensures i >= |a| + |mid| ==> KeywordAt(b, i - |a| - |mid|, keyword)
  {
    var w := a + mid + b;
    if i < |a| {
      if i + |keyword| > |a| {
        KeywordIsWord(w, i, keyword, |a| - i);
      }
      forall k | 0 <= k < |keyword| ensures Upper(a[i + k]) == keyword[k] {
        assert a[i + k] == w[i + k];
      }
    }
    if i >= |a| + |mid| {
      var j := i - |a| - |mid|;
      forall k | 0 <= k < |keyword| ensures Upper(b[j + k]) == keyword[k] {
        assert b[j + k] == w[i + k];
      }
      assert j > 0 ==> b[j - 1] == w[i - 1];
      assert j + |keyword| < |b| ==> b[j + |keyword|] == w[i + |keyword|];
    }
  }


  lemma GapIsPlain(g: string)
    requires IsGap(g)
    ensures IsPlain(g) && IsSpace(g[0]) && IsSpace(g[|g| - 1]) && forall i | 0 <= i < |g| :: IsSpace(g[i])
  {
    assert forall i | 0 <= i < |g| :: g[i] in g;
  }

  /** The three connectives. */
  predicate IsConnective(word: string) {
    IsSpelling(word, "OR", "or") || IsSpelling(word, "AND", "and") || IsSpelling(word, "NOT", "not")
  }

  lemma ConnectiveIsPlain(word: string)
    requires IsConnective(word)
    ensures word != "" && IsPlain(word) && forall i | 0 <= i < |word| :: IsWord(word[i])
  {
    forall c | c in word ensures IsWord(c) {
      var i :| 0 <= i < |word| && word[i] == c;
    }
  }

  lemma PlainConcat(a: string, b: string)
    requires IsPlain(a) && IsPlain(b)
    ensures IsPlain(a + b)
  {
  }

  /** A connective between white space, or before it, joins. */
  lemma ConnectiveJoins(before: string, word: string, after: string)
    requires (before == "" || IsGap(before)) && IsConnective(word) && IsGap(after)
    ensures IsJoiner(before + word + after) && (before != "" ==> IsSpace((before + word + after)[0]))
  {
    ConnectiveIsPlain(word);
    GapIsPlain(after);
    if before != "" {
      GapIsPlain(before);
    }
    PlainConcat(before, word);
    PlainConcat(before + word, after);
  }

  /** Which keyword a spelling can be taken for, read from its letter `k`. */
  lemma SpellingStands(word: string, k: nat, keyword: string)
    requires IsConnective(word) && (keyword == "OR" || keyword == "AND") && k < |word|
    requires k + |keyword| <= |word| && forall j | 0 <= j < |keyword| :: Upper(word[k + j]) == keyword[j]
    ensures k == 0 && (if keyword == "OR" then IsSpelling(word, "OR", "or") else IsSpelling(word, "AND", "and"))
  {
    assert Upper(word[k + 0]) == keyword[0] && Upper(word[k + 1]) == keyword[1];
  }

  /** The only keyword starting inside a joining text is its own, at its place. */
  lemma KeywordInMid(a: string, before: string, word: string, after: string, b: string, i: nat, keyword: string)
    requires (before == "" || IsGap(before)) && IsConnective(word) && IsGap(after)
    requires (keyword == "OR" || keyword == "AND") && |a| <= i < |a| + |before + word + after|
    requires KeywordAt(a + (before + word + after) + b, i, keyword)
    ensures i == |a| + |before|
    ensures if keyword == "OR" then IsSpelling(word, "OR", "or") else IsSpelling(word, "AND", "and")
  {
    NotInGaps(a, before, word, after, b, i, keyword);
    WordStands(a, before, word, after, b);
    KeywordInWord(a + (before + word + after) + b, |a| + |before|, word, i, keyword);
  }

  lemma KeywordInWord(w: string, from: nat, word: string, i: nat, keyword: string)
    requires IsConnective(word) && from + |word| < |w| && IsSpace(w[from + |word|])
    requires forall j | 0 <= j < |word| :: w[from + j] == word[j]
    requires (keyword == "OR" || keyword == "AND") && from <= i < from + |word| && KeywordAt(w, i, keyword)
    ensures i == from
    ensures if keyword == "OR" then IsSpelling(word, "OR", "or") else IsSpelling(word, "AND", "and")
  {
    var k := i - from;
    if k + |keyword| > |word| {
      KeywordIsWord(w, i, keyword, |word| - k);
    }
    forall j | 0 <= j < |keyword| ensures Upper(word[k + j]) == keyword[j] {
      assert w[i + j] == w[from + (k + j)];
    }
    SpellingStands(word, k, keyword);
  }

  /** Where the connective stands in the joined text, and what follows it. */
  lemma WordStands(a: string, before: string, word: string, after: string, b: string)
    requires IsGap(after)
    ensures var w, from := a + (before + word + after) + b, |a| + |before|;
            && from + |word| < |w| && IsSpace(w[from + |word|])
            && forall j | 0 <= j < |word| :: w[from + j] == word[j]
  {
    GapIsPlain(after);
    assert (a + (before + word + after) + b)[|a| + |before| + |word|] == after[0];
  }

  /** White space starts no keyword. */
  lemma NotInGaps(a: string, before: string, word: string, after: string, b: string, i: nat, keyword: string)
    requires (before == "" || IsGap(before)) && IsConnective(word) && IsGap(after)
    requires (keyword == "OR" || keyword == "AND") && |a| <= i < |a| + |before + word + after|
    requires KeywordAt(a + (before + word + after) + b, i, keyword)
    ensures |a| + |before| <= i < |a| + |before| + |word|
  {
    var mid := before + word + after;
    assert (a + mid + b)[i] == mid[i - |a|];
    KeywordIsWord(a + mid + b, i, keyword, 0);
    GapIsPlain(after);
    if before != "" {
      GapIsPlain(before);
    }
  }

  /** A keyword absent from both operands and not the joiner's own is absent from the whole. */
  lemma NoTopJoined(a: string, before: string, word: string, after: string, b: string, keyword: string)
    requires (before == "" || IsGap(before)) && IsConnective(word) && IsGap(after)
    requires keyword == "OR" || keyword == "AND"
    requires if keyword == "OR" then !IsSpelling(word, "OR", "or") else !IsSpelling(word, "AND", "and")
    requires (Segment(a) && before != "") || a == ""
    requires NoTop(a, keyword) && NoTop(b, keyword)
    ensures NoTop(a + (before + word + after) + b, keyword)
  {
    var mid := before + word + after;
    var w := a + mid + b;
    ConnectiveJoins(before, word, after);
    assert At(a, |a|) == NEUTRAL;
    forall i | 0 <= i < |w| ensures !TopKeyword(w, i, keyword) {
      AtJoined(a, mid, b, i);
      if i < |a| {
        assert !TopKeyword(a, i, keyword);
      } else if i >= |a| + |mid| {
        assert !TopKeyword(b, i - |a| - |mid|, keyword);
      }
      if KeywordAt(w, i, keyword) {
        KeywordInPart(a, mid, b, i, keyword);
        if |a| <= i < |a| + |mid| {
          KeywordInMid(a, before, word, after, b, i, keyword);
        }
      }
    }
  }

  predicate IsKeyword(word: string, keyword: string) {
    (keyword == "OR" && IsSpelling(word, "OR", "or")) || (keyword == "AND" && IsSpelling(word, "AND", "and"))
  }

  lemma KeywordOfJoiner(a: string, before: string, word: string, after: string, b: string, keyword: string)
    requires IsGap(before) && IsKeyword(word, keyword) && IsGap(after) && Segment(a)
    ensures TopKeyword(a + (before + word + after) + b, |a| + |before|, keyword)
  {
    var mid := before + word + after;
    var w, i := a + mid + b, |a| + |before|;
    GapIsPlain(before);
    GapIsPlain(after);
    ConnectiveJoins(before, word, after);
    AtJoined(a, mid, b, i);
    forall k | 0 <= k < |keyword| ensures Upper(w[i + k]) == keyword[k] {
      assert w[i + k] == word[k];
    }
    assert w[i - 1] == before[|before| - 1] && w[i + |keyword|] == after[0];
  }

  lemma NothingAfterJoiner(a: string, before: string, word: string, after: string, b: string, keyword: string, i: nat)
    requires IsGap(before) && IsKeyword(word, keyword) && IsGap(after) && Segment(a) && NoTop(b, keyword)
    requires |a| + |before| < i < |a + (before + word + after) + b|
    ensures !TopKeyword(a + (before + word + after) + b, i, keyword)
  {
    var mid := before + word + after;
    ConnectiveJoins(before, word, after);
    AtJoined(a, mid, b, i);
    if i >= |a| + |mid| {
      assert !TopKeyword(b, i - |a| - |mid|, keyword);
    }
    if KeywordAt(a + mid + b, i, keyword) {
      KeywordInPart(a, mid, b, i, keyword);
      if i < |a| + |mid| {
        KeywordInMid(a, before, word, after, b, i, keyword);
      }
    }
  }

  /** The joiner's own keyword is the last top-level one, if the right operand has none. */
  lemma LastTopJoined(a: string, before: string, word: string, after: string, b: string, keyword: string)
    requires IsGap(before) && IsKeyword(word, keyword) && IsGap(after) && Segment(a) && NoTop(b, keyword)
    ensures var w := a + (before + word + after) + b; LastTop(w, keyword, |w|) == Some(|a| + |before|)
  {
    var w := a + (before + word + after) + b;
    KeywordOfJoiner(a, before, word, after, b, keyword);
    forall i | |a| + |before| < i < |w| ensures !TopKeyword(w, i, keyword) {
      NothingAfterJoiner(a, before, word, after, b, keyword, i);
    }
    LastTopIs(w, keyword, |w|);
  }

  /** Joined operands are not one parenthesised group: the first group closes before the end. */
  lemma JoinedNotEnclosed(a: string, mid: string, b: string)
    requires IsJoiner(mid) && b != "" && (Segment(a) || (a == "" && mid[0] != '('))
    ensures !Enclosed(a + mid + b)
  {
    if a != "" {
      FirstGroupCloses(a, mid, b, 0);
    }
  }

  lemma {:induction false} FirstGroupCloses(a: string, mid: string, b: string, i: nat)
    requires IsJoiner(mid) && b != "" && Segment(a) && i <= |a|
    ensures !EnclosesFrom(a + mid + b, i)
    decreases |a| - i
  {
    if i == |a| {
      AtJoined(a, mid, b, i);
      AtJoined(a, mid, b, i + 1);
    } else {
      FirstGroupCloses(a, mid, b, i + 1);
    }
  }

  // Parenthesised texts.

  lemma AtWrapped(p: string, i: nat)
    requires At(p, |p|) == NEUTRAL && i <= |p| + 2
    ensures At("(" + p + ")", i) == if i == 0 || i == |p| + 2 then NEUTRAL else Shifted(At(p, i - 1))
  {
    var w := "(" + p + ")";
    if 0 < i <= |p| + 1 {
      WrappedPrefix(p, i - 1);
      assert w[..i] == "(" + p[..i - 1];
    } else if i == |p| + 2 {
      WrappedPrefix(p, |p|);
      assert p[..|p|] == p && w[..i] == ("(" + p) + ")";
      RunConcat(NEUTRAL, None, "(" + p, ")");
      RunOne(Shifted(NEUTRAL), LastOf(None, "(" + p), ')');
    }
  }

  lemma RunOne(st: Scan, prev: Option<char>, c: char)
    ensures Run(st, prev, [c]) == Next(st, prev, c)
  {
    assert [c][..0] == "";
  }

  lemma WrappedPrefix(p: string, j: nat)
    requires j <= |p|
    ensures Run(NEUTRAL, None, "(" + p[..j]) == Shifted(At(p, j))
  {
    RunConcat(NEUTRAL, None, "(", p[..j]);
    RunOne(NEUTRAL, None, '(');
    RunPrevious(Shifted(NEUTRAL), '(', p[..j]);
    RunShifted(NEUTRAL, None, p[..j]);
  }

  lemma WrappedIsSegment(p: string)
    requires ClosedText(p)
    ensures Segment("(" + p + ")")
  {
    var w := "(" + p + ")";
    forall i | 0 <= i <= |w| ensures At(w, i).depth >= 0 && At(w, i).parens >= 0 {
      AtWrapped(p, i);
    }
    AtWrapped(p, |w|);
  }

  lemma WrappedNoTop(p: string, keyword: string)
    requires ClosedText(p) && (keyword == "OR" || keyword == "AND")
    ensures NoTop("(" + p + ")", keyword)
  {
    var w := "(" + p + ")";
    forall i | 0 <= i < |w| ensures !TopKeyword(w, i, keyword) {
      AtWrapped(p, i);
      if i == 0 {
        NoBracketKeyword(w, 0, keyword);
      }
    }
  }

  lemma {:induction false} WrappedEncloses(p: string, i: nat)
    requires ClosedText(p) && i <= |p| + 1
    ensures EnclosesFrom("(" + p + ")", i)
    decreases |p| + 1 - i
  {
    AtWrapped(p, i);
    AtWrapped(p, i + 1);
    if i <= |p| {
      WrappedEncloses(p, i + 1);
    }
  }

  // Trimming and stripping.

  lemma TrimTight(w: string)
    requires Tight(w)
    ensures Trim(w) == w
  {
  }

  lemma {:induction false} TrimStartGap(g: string, w: string)
    requires (g == "" || IsGap(g)) && w != "" && !IsSpace(w[0])
    ensures TrimStart(g + w) == w
    decreases |g|
  {
    if g == "" {
      assert g + w == w;
    } else {
      GapIsPlain(g);
      assert (g + w)[0] == g[0] && (g + w)[1..] == g[1..] + w;
      assert forall c | c in g[1..] :: c in g;
      TrimStartGap(g[1..], w);
    }
  }

  lemma {:induction false} TrimEndGap(w: string, g: string)
    requires (g == "" || IsGap(g)) && w != "" && !IsSpace(w[|w| - 1])
    ensures TrimEnd(w + g) == w
    decreases |g|
  {
    if g == "" {
      assert w + g == w;
    } else {
      GapIsPlain(g);
      assert (w + g)[|w + g| - 1] == g[|g| - 1] && (w + g)[..|w + g| - 1] == w + g[..|g| - 1];
      assert forall c | c in g[..|g| - 1] :: c in g;
      TrimEndGap(w, g[..|g| - 1]);
    }
  }

  /** White space around a tight text is trimmed. */
  lemma TrimGaps(g: string, w: string, h: string)
    requires (g == "" || IsGap(g)) && Tight(w) && (h == "" || IsGap(h))
    ensures Trim(g + w + h) == w
  {
    assert g + w + h == g + (w + h);
    TrimStartGap(g, w + h);
    TrimEndGap(w, h);
  }

  /** White space around a closed text leaves it closed. */
  lemma GapBefore(g: string, w: string)
    requires (g == "" || IsGap(g)) && ClosedText(w)
    ensures ClosedText(g + w)
  {
    if g == "" {
      assert g + w == w;
    } else {
      GapIsPlain(g);
      forall i | 0 <= i <= |g + w| ensures At(g + w, i) == if i <= |g| then NEUTRAL else At(w, i - |g|) {
        AtJoined("", g, w, i);
        assert "" + g + w == g + w;
      }
      assert w[..|w|] == w;
    }
  }

  lemma GapAfter(w: string, g: string)
    requires (g == "" || IsGap(g)) && ClosedText(w)
    ensures ClosedText(w + g)
  {
    if g == "" {
      assert w + g == w;
    } else {
      GapIsPlain(g);
      forall i | 0 <= i <= |w + g| ensures At(w + g, i) == if i <= |w| then At(w, i) else NEUTRAL {
        AtJoined(w, g, "", i);
        assert w + g + "" == w + g;
      }
    }
  }

  lemma InnerIsClosed(g: string, p: string, h: string)
    requires ClosedText(p) && (g == "" || IsGap(g)) && (h == "" || IsGap(h))
    ensures ClosedText(g + p + h)
  {
    GapBefore(g, p);
    GapAfter(g + p, h);
  }

  /** Parentheses around a closed text are stripped, with the white space inside them. */
  lemma StripGroup(g: string, p: string, h: string)
    requires Segment(p) && (g == "" || IsGap(g)) && (h == "" || IsGap(h))
    ensures Strip("(" + (g + p + h) + ")") == Strip(p)
  {
    var inner := g + p + h;
    var w := "(" + inner + ")";
    InnerIsClosed(g, p, h);
    WrappedEncloses(inner, 0);
    assert w[1..|w| - 1] == inner;
    TrimGaps(g, p, h);
  }

  /** Parsing sees only the trimmed and stripped text. */
  lemma ParseStripped(x: string, y: string)
    requires Strip(Trim(x)) == Strip(Trim(y))
    ensures Parse(x) == Parse(y)
  {
  }

  // The round trip.

  /** What a written operand of the given level guarantees. */
  ghost predicate Operand(w: string, level: nat) {
    forall u {:trigger Unfold(u)} | Unfold(u) ::
      Segment(w) && (level >= 2 ==> NoTop(w, "OR")) && (level >= 3 ==> NoTop(w, "AND"))
  }

  lemma OperandIsTight(w: string, level: nat)
    requires Operand(w, level)
    ensures Tight(w)
  {
    assert Unfold(true);
  }

  lemma OperandAt(w: string, level: nat, lower: nat)
    requires Operand(w, level) && lower <= level
    ensures Operand(w, lower)
  {
  }

  lemma EitherText(a: string, before: string, word: string, after: string, b: string)
    requires Operand(a, 1) && IsGap(before) && IsSpelling(word, "OR", "or") && IsGap(after) && Operand(b, 2)
    ensures var w := a + (before + word + after) + b; Operand(w, 1) && !Enclosed(w)
  {
    assert Unfold(true);
    ConnectiveJoins(before, word, after);
    JoinedIsSegment(a, before + word + after, b);
    JoinedNotEnclosed(a, before + word + after, b);
  }

  lemma BothText(a: string, before: string, word: string, after: string, b: string)
    requires Operand(a, 2) && IsGap(before) && IsSpelling(word, "AND", "and") && IsGap(after) && Operand(b, 3)
    ensures var w := a + (before + word + after) + b; Operand(w, 2) && !Enclosed(w)
  {
    assert Unfold(true);
    ConnectiveJoins(before, word, after);
    JoinedIsSegment(a, before + word + after, b);
    NoTopJoined(a, before, word, after, b, "OR");
    JoinedNotEnclosed(a, before + word + after, b);
  }

  lemma NegatedText(word: string, after: string, b: string)
    requires IsSpelling(word, "NOT", "not") && IsGap(after) && Operand(b, 3)
    ensures var w := "" + (word + after) + b; Operand(w, 3) && !Enclosed(w)
  {
    assert Unfold(true);
    assert "" + word + after == word + after;
    ConnectiveJoins("", word, after);
    ConnectiveIsPlain(word);
    assert (word + after)[0] == word[0] && IsWord(word[0]);
    JoinedIsSegment("", word + after, b);
    NoTopJoined("", "", word, after, b, "OR");
    NoTopJoined("", "", word, after, b, "AND");
    JoinedNotEnclosed("", word + after, b);
  }

  lemma GroupText(g: string, p: string, h: string, level: nat)
    requires Operand(p, level) && (g == "" || IsGap(g)) && (h == "" || IsGap(h))
    ensures Operand("(" + (g + p + h) + ")", 4)
  {
    assert Unfold(true);
    InnerIsClosed(g, p, h);
    WrappedIsSegment(g + p + h);
    WrappedNoTop(g + p + h, "OR");
    WrappedNoTop(g + p + h, "AND");
  }

  /** What writing guarantees of a phrase's text. */
  lemma {:induction false} TextOk(t: Phrase)
    requires Written(t)
    ensures Operand(Text(t), Level(t)) && (t.Group? || !Enclosed(Text(t)))
    decreases t
  {
    match t
    case Plain(_) =>
    case Negated(word, after, operand) =>
      TextOk(operand);
      OperandAt(Text(operand), Level(operand), 3);
      NegatedText(word, after, Text(operand));
    case Both(l, before, word, after, r) =>
      TextOk(l);
      TextOk(r);
      OperandAt(Text(l), Level(l), 2);
      OperandAt(Text(r), Level(r), 3);
      BothText(Text(l), before, word, after, Text(r));
    case Either(l, before, word, after, r) =>
      TextOk(l);
      TextOk(r);
      OperandAt(Text(l), Level(l), 1);
      OperandAt(Text(r), Level(r), 2);
      EitherText(Text(l), before, word, after, Text(r));
    case Group(before, inner, after) =>
      TextOk(inner);
      GroupText(before, Text(inner), after, Level(inner));
  }

  lemma TrimmedAlike(w: string, g: string)
    requires Tight(w) && (g == "" || IsGap(g))
    ensures Trim(w + g) == Trim(w) && Trim(g + w) == Trim(w)
  {
    TrimGaps("", w, g);
    TrimGaps(g, w, "");
    TrimTight(w);
    assert "" + w + g == w + g && g + w + "" == g + w;
  }

  lemma ParseOr(w: string, i: nat, l: Tree, r: Tree)
    requires w != "" && Strip(Trim(w)) == w && LastTop(w, "OR", |w|) == Some(i) && i + 2 <= |w|
    requires Parse(w[..i]) == Some(l) && Parse(w[i + 2..]) == Some(r)
    ensures Parse(w) == Some(Or(l, r))
  {
    LastTopIs(w, "OR", |w|);
  }

  lemma ParseAnd(w: string, i: nat, l: Tree, r: Tree)
    requires w != "" && Strip(Trim(w)) == w && LastTop(w, "OR", |w|).None? && LastTop(w, "AND", |w|) == Some(i) &&
             i + 3 <= |w|
    requires Parse(w[..i]) == Some(l) && Parse(w[i + 3..]) == Some(r)
    ensures Parse(w) == Some(And(l, r))
  {
    LastTopIs(w, "AND", |w|);
  }

  lemma NoneAtTop(w: string, keyword: string)
    requires NoTop(w, keyword)
    ensures LastTop(w, keyword, |w|).None?
  {
    LastTopIs(w, keyword, |w|);
  }

  lemma StripsToItself(w: string)
    requires Segment(w) && !Enclosed(w)
    ensures w != "" && Strip(Trim(w)) == w
  {
    TrimTight(w);
  }

  /** The two sides of the keyword, each with its white space. */
  lemma Sides(a: string, before: string, word: string, after: string, b: string)
    ensures var w := a + (before + word + after) + b;
            w[..|a| + |before|] == a + before && w[|a| + |before| + |word|..] == after + b
  {
  }

  /** The text parses to the tree. */
  ghost predicate ParsesTo(w: string, t: Tree) {
    forall u {:trigger UnfoldAgain(u)} | UnfoldAgain(u) :: Parse(w) == Some(t)
  }

  lemma SideParses(x: string, y: string, t: Tree)
    requires ParsesTo(y, t) && Trim(x) == Trim(y)
    ensures ParsesTo(x, t)
  {
    assert UnfoldAgain(true);
    ParseStripped(x, y);
  }

  /** What the parser sees first: a stripped text and its last top-level OR, or else AND. */
  ghost predicate Scanned(w: string, or: Option<nat>, and: Option<nat>) {
    forall u {:trigger Unfold(u)} | Unfold(u) ::
      && w != "" && Strip(Trim(w)) == w && LastTop(w, "OR", |w|) == or
      && (or.None? ==> LastTop(w, "AND", |w|) == and)
  }

  lemma SplitOr(w: string, i: nat, j: nat, l: Tree, r: Tree)
    requires Scanned(w, Some(i), None) && j == i + 2 <= |w| && ParsesTo(w[..i], l) && ParsesTo(w[j..], r)
    ensures ParsesTo(w, Or(l, r))
  {
    assert Unfold(true) && UnfoldAgain(true);
    ParseOr(w, i, l, r);
  }

  lemma SplitAnd(w: string, i: nat, j: nat, l: Tree, r: Tree)
    requires Scanned(w, None, Some(i)) && j == i + 3 <= |w| && ParsesTo(w[..i], l) && ParsesTo(w[j..], r)
    ensures ParsesTo(w, And(l, r))
  {
    assert Unfold(true) && UnfoldAgain(true);
    ParseAnd(w, i, l, r);
  }

  /** The operands of a joined text parse as they do alone. */
  lemma SidesParse(w: string, i: nat, j: nat, a: string, before: string, word: string, after: string, b: string,
                   l: Tree,
                   r: Tree)
    requires Tight(a) && IsGap(before) && IsGap(after) && Tight(b) && ParsesTo(a, l) && ParsesTo(b, r)
    requires w == a + (before + word + after) + b && i == |a| + |before| && j == i + |word|
    ensures j <= |w| && ParsesTo(w[..i], l) && ParsesTo(w[j..], r)
  {
    Sides(a, before, word, after, b);
    TrimmedAlike(a, before);
    TrimmedAlike(b, after);
    SideParses(w[..i], a, l);
    SideParses(w[j..], b, r);
  }

  lemma EitherScans(a: string, before: string, word: string, after: string, b: string)
    requires Operand(a, 1) && IsGap(before) && IsSpelling(word, "OR", "or") && IsGap(after) && Operand(b, 2)
    ensures Scanned(a + (before + word + after) + b, Some(|a| + |before|), None)
  {
    assert Unfold(true);
    EitherText(a, before, word, after, b);
    StripsToItself(a + (before + word + after) + b);
    LastTopJoined(a, before, word, after, b, "OR");
  }

  lemma BothScans(a: string, before: string, word: string, after: string, b: string)
    requires Operand(a, 2) && IsGap(before) && IsSpelling(word, "AND", "and") && IsGap(after) && Operand(b, 3)
    ensures Scanned(a + (before + word + after) + b, None, Some(|a| + |before|))
  {
    assert Unfold(true);
    var w := a + (before + word + after) + b;
    BothText(a, before, word, after, b);
    StripsToItself(w);
    NoneAtTop(w, "OR");
    LastTopJoined(a, before, word, after, b, "AND");
  }

  lemma ParseNot(w: string, n: Tree)
    requires w != "" && Strip(Trim(w)) == w && LastTop(w, "OR", |w|).None? && LastTop(w, "AND", |w|).None?
    requires KeywordAt(w, 0, "NOT") && Parse(w[3..]) == Some(n)
    ensures Parse(w) == Some(Not(n))
  {
  }

  lemma NotKeyword(word: string, after: string, b: string)
    requires IsSpelling(word, "NOT", "not") && IsGap(after)
    ensures var w := word + after + b; KeywordAt(w, 0, "NOT") && w[3..] == after + b
  {
    var w := word + after + b;
    GapIsPlain(after);
    assert w[3] == after[0];
    forall k | 0 <= k < 3 ensures Upper(w[0 + k]) == "NOT"[k] {
      assert w[k] == word[k];
    }
  }

  lemma NegatedScans(word: string, after: string, b: string)
    requires IsSpelling(word, "NOT", "not") && IsGap(after) && Operand(b, 3)
    ensures var w := "" + (word + after) + b;
            && w != "" && Strip(Trim(w)) == w && LastTop(w, "OR", |w|).None? && LastTop(w, "AND", |w|).None?
            && KeywordAt(w, 0, "NOT") && w[3..] == after + b
  {
    assert Unfold(true);
    var w := "" + (word + after) + b;
    NegatedText(word, after, b);
    StripsToItself(w);
    NoneAtTop(w, "OR");
    NoneAtTop(w, "AND");
    assert w == word + after + b;
    NotKeyword(word, after, b);
  }

  lemma NegatedParses(word: string, after: string, b: string, n: Tree)
    requires IsSpelling(word, "NOT", "not") && IsGap(after) && Operand(b, 3) && ParsesTo(b, n)
    ensures ParsesTo("" + (word + after) + b, Not(n))
  {
    NegatedScans(word, after, b);
    OperandIsTight(b, 3);
    TrimmedAlike(b, after);
    SideParses(after + b, b, n);
    SplitNot("" + (word + after) + b, n);
  }

  lemma SplitNot(w: string, n: Tree)
    requires w != "" && Strip(Trim(w)) == w && LastTop(w, "OR", |w|).None? && LastTop(w, "AND", |w|).None?
    requires KeywordAt(w, 0, "NOT") && ParsesTo(w[3..], n)
    ensures ParsesTo(w, Not(n))
  {
    assert UnfoldAgain(true);
    ParseNot(w, n);
  }

  lemma GroupParses(g: string, p: string, h: string, t: Tree, level: nat)
    requires Operand(p, level) && (g == "" || IsGap(g)) && (h == "" || IsGap(h)) && ParsesTo(p, t)
    ensures ParsesTo("(" + (g + p + h) + ")", t)
  {
    var w := "(" + (g + p + h) + ")";
    GroupText(g, p, h, level);
    GroupStrips(g, p, h, level);
    OperandIsTight(w, 4);
    TrimTight(w);
    TrimTight(p);
    SameStripped(w, p, t);
  }

  lemma GroupStrips(g: string, p: string, h: string, level: nat)
    requires Operand(p, level) && (g == "" || IsGap(g)) && (h == "" || IsGap(h))
    ensures Tight(p) && Strip("(" + (g + p + h) + ")") == Strip(p)
  {
    assert Unfold(true);
    StripGroup(g, p, h);
  }

  lemma SameStripped(x: string, y: string, t: Tree)
    requires Strip(Trim(x)) == Strip(Trim(y)) && ParsesTo(y, t)
    ensures ParsesTo(x, t)
  {
    assert UnfoldAgain(true);
    ParseStripped(x, y);
  }

  lemma PlainParses(w: string)
    requires LeafOk(w)
    ensures ParsesTo(w, Leaf(w))
  {
    StripsToItself(w);
    NoneAtTop(w, "OR");
    NoneAtTop(w, "AND");
  }

  lemma EitherJoins(a: string, before: string, word: string, after: string, b: string, l: Tree, r: Tree)
    requires Operand(a, 1) && IsGap(before) && IsSpelling(word, "OR", "or") && IsGap(after) && Operand(b, 2)
    requires ParsesTo(a, l) && ParsesTo(b, r)
    ensures ParsesTo(a + (before + word + after) + b, Or(l, r))
  {
    var w, i, j := a + (before + word + after) + b, |a| + |before|, |a| + |before| + |word|;
    OperandIsTight(a, 1);
    OperandIsTight(b, 2);
    EitherScans(a, before, word, after, b);
    SidesParse(w, i, j, a, before, word, after, b, l, r);
    SplitOr(w, i, j, l, r);
  }

  lemma BothJoins(a: string, before: string, word: string, after: string, b: string, l: Tree, r: Tree)
    requires Operand(a, 2) && IsGap(before) && IsSpelling(word, "AND", "and") && IsGap(after) && Operand(b, 3)
    requires ParsesTo(a, l) && ParsesTo(b, r)
    ensures ParsesTo(a + (before + word + after) + b, And(l, r))
  {
    var w, i, j := a + (before + word + after) + b, |a| + |before|, |a| + |before| + |word|;
    OperandIsTight(a, 2);
    OperandIsTight(b, 3);
    BothScans(a, before, word, after, b);
    SidesParse(w, i, j, a, before, word, after, b, l, r);
    SplitAnd(w, i, j, l, r);
  }

  lemma {:induction false} PhraseParses(t: Phrase)
    requires Written(t)
    ensures ParsesTo(Text(t), Meaning(t))
    decreases t
  {
    match t
    case Plain(w) => PlainParses(w);
    case Negated(word, after, operand) =>
      TextOk(operand);
      PhraseParses(operand);
      OperandAt(Text(operand), Level(operand), 3);
      NegatedParses(word, after, Text(operand), Meaning(operand));
    case Both(l, before, word, after, r) =>
      TextOk(l);
      TextOk(r);
      PhraseParses(l);
      PhraseParses(r);
      OperandAt(Text(l), Level(l), 2);
      OperandAt(Text(r), Level(r), 3);
      BothJoins(Text(l), before, word, after, Text(r), Meaning(l), Meaning(r));
    case Either(l, before, word, after, r) =>
      TextOk(l);
      TextOk(r);
      PhraseParses(l);
      PhraseParses(r);
      OperandAt(Text(l), Level(l), 1);
      OperandAt(Text(r), Level(r), 2);
      EitherJoins(Text(l), before, word, after, Text(r), Meaning(l), Meaning(r));
    case Group(before, inner, after) =>
      TextOk(inner);
      PhraseParses(inner);
      GroupParses(before, Text(inner), after, Meaning(inner), Level(inner));
  }

  /** Parsing a written condition gives what is written, whatever spelling, white space and parentheses were chosen. */
  lemma ParsePrinted(t: Phrase)
    requires Written(t)
    ensures Parse(Text(t)) == Some(Meaning(t))
  {
    PhraseParses(t);
    assert UnfoldAgain(true);
  }

  /** A trimmed, closed text is parsed as one predicate exactly when it is a leaf in the sense above. */
  lemma LeafIff(w: string)
    requires Segment(w)
    ensures Parse(w) == Some(Leaf(w)) <==> LeafOk(w)
  {
    if LeafOk(w) {
      ParsePrinted(Plain(w));
    } else if Parse(w) == Some(Leaf(w)) {
      ParsedLeafIsOk(w);
    }
  }

  lemma ParsedLeafIsOk(w: string)
    requires Segment(w) && Parse(w) == Some(Leaf(w))
    ensures LeafOk(w)
  {
    TrimTight(w);
    assert Strip(w) == w;
    LastTopIs(w, "OR", |w|);
    LastTopIs(w, "AND", |w|);
  }

  // A connective inside CASE is not nested for the parser.

  /** A text without one of the keyword's letters does not contain the keyword. */
  lemma NoLetter(w: string, keyword: string, k: nat)
    requires k < |keyword| && forall i | 0 <= i < |w| :: Upper(w[i]) != keyword[k]
    ensures forall i | 0 <= i < |w| :: !KeywordAt(w, i, keyword)
  {
    forall i | 0 <= i < |w| ensures !KeywordAt(w, i, keyword) {
      assert i + k < |w| ==> Upper(w[i + k]) != keyword[k];
    }
  }

  lemma PlainLeaf(w: string)
    requires w != "" && IsPlain(w) && !IsSpace(w[0]) && !IsSpace(w[|w| - 1])
    requires forall i | 0 <= i < |w| :: !KeywordAt(w, i, "OR") && !KeywordAt(w, i, "AND")
    requires !KeywordAt(w, 0, "NOT")
    ensures LeafOk(w)
  {
    forall i | 0 <= i <= |w| ensures At(w, i) == NEUTRAL {
      assert IsPlain(w[..i]);
      RunPlain(NEUTRAL, None, w[..i]);
    }
    assert w[0] in w;
  }

  const CASE_LEFT := "CASE WHEN p"
  const CASE_RIGHT := "q THEN 1 END = 1"

  lemma LeftIsLeaf()
    ensures LeafOk(CASE_LEFT)
  {
    var w := CASE_LEFT;
    NoLetter(w, "OR", 0);
    NoLetter(w, "AND", 2);
    PlainLeaf(w);
  }

  lemma RightIsLeaf()
    ensures LeafOk(CASE_RIGHT)
  {
    var w := CASE_RIGHT;
    NoLetter(w, "OR", 0);
    NoLetter(w, "AND", 0);
    PlainLeaf(w);
  }

  /** `CASE WHEN p AND q THEN 1 END = 1` is split at the AND inside CASE. */
  lemma CaseIsSplit()
    ensures Parse(CASE_LEFT + (" " + "AND" + " ") + CASE_RIGHT) == Some(And(Leaf(CASE_LEFT), Leaf(CASE_RIGHT)))
  {
    LeftIsLeaf();
    RightIsLeaf();
    SplitAtAnd(CASE_LEFT, CASE_RIGHT);
  }

  lemma SplitAtAnd(l: string, r: string)
    requires LeafOk(l) && LeafOk(r)
    ensures Parse(l + (" " + "AND" + " ") + r) == Some(And(Leaf(l), Leaf(r)))
  {
    ParsePrinted(Both(Plain(l), " ", "AND", " ", Plain(r)));
  }
}
