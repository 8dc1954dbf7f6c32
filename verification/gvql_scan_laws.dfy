/** What the scans of the parsers recognise. */
module GvqlScanLaws {
  // Quoted texts, keywords and signs, said without the scans' own tests.

  import opened EncodedGraph
  import opened GvqlConditionParser
  import opened GvqlValueParser

  /** A text that stands between two quotes of this kind: each such quote inside has a backslash before it. */
  predicate Quotable(q: char, s: string) {
    && (q == '"' || q == '\'')
    && (forall i | 0 <= i < |s| && s[i] == q :: i > 0 && s[i - 1] == '\\')
    && (s != "" ==> s[|s| - 1] != '\\')
  }

  lemma {:induction false} InsideQuotes(st: Scan, prev: Option<char>, q: char, s: string, k: nat)
    requires Quotable(q, s) && k <= |s| && st.quote == None && prev != Some('\\')
    ensures Run(st, prev, [q] + s[..k]) == st.(quote := Some(q))
    decreases k
  {
    var open := [q];
    if k == 0 {
      assert open + s[..0] == open && open[..0] == "";
      assert Run(st, prev, open[..0]) == st && LastOf(prev, open[..0]) == prev;
      assert Run(st, prev, open) == Next(st, prev, q);
    } else {
      InsideQuotes(st, prev, q, s, k - 1);
      assert (open + s[..k])[..k] == open + s[..k - 1];
      assert (open + s[..k])[k] == s[k - 1];
      assert LastOf(prev, open + s[..k - 1]) == Some(if k == 1 then q else s[k - 2]);
    }
  }

  /** After the closing quote the scan is where it was. */
  lemma QuotesClose(st: Scan, prev: Option<char>, q: char, s: string)
    requires Quotable(q, s) && st.quote == None && prev != Some('\\')
    ensures Run(st, prev, [q] + s + [q]) == st
  {
    InsideQuotes(st, prev, q, s, |s|);
    assert s[..|s|] == s;
    var text := [q] + s + [q];
    assert text[..|text| - 1] == [q] + s;
    assert LastOf(prev, [q] + s) == Some(if s == "" then q else s[|s| - 1]);
  }

  /** Nothing inside a quoted text is a keyword or an operator, and the scan goes on after it as before it. */
  lemma QuotedIsOpaque(a: string, q: char, s: string, b: string, i: nat, keyword: string, operators: seq<char>)
    requires Quotable(q, s) && At(a, |a|).quote == None && (a != "" ==> a[|a| - 1] != '\\')
    ensures var w := a + ([q] + s + [q]) + b;
            && (|a| < i <= |a| + 1 + |s| ==> !TopKeyword(w, i, keyword) && !TopOperator(w, i, operators))
            && At(w, |a| + |s| + 2) == At(a, |a|)
  {
    var w, quoted := a + ([q] + s + [q]) + b, [q] + s + [q];
    assert a[..|a|] == a;
    if |a| < i <= |a| + 1 + |s| {
      var k := i - |a| - 1;
      assert quoted[..k + 1] == [q] + s[..k];
      assert w[..i] == a + ([q] + s[..k]);
      RunConcat(NEUTRAL, None, a, [q] + s[..k]);
      InsideQuotes(At(a, |a|), LastOf(None, a), q, s, k);
    }
    assert w[..|a| + |s| + 2] == a + quoted;
    RunConcat(NEUTRAL, None, a, quoted);
    QuotesClose(At(a, |a|), LastOf(None, a), q, s);
  }

  /** Letters, digits and the underscore. */
  predicate InWord(c: char) {
    c == '_' || '0' <= c <= '9' || 'A' <= c <= 'Z' || 'a' <= c <= 'z'
  }

  predicate IsKeyword(upper: string, lower: string) {
    || (upper == "OR" && lower == "or") || (upper == "AND" && lower == "and") || (upper == "NOT" && lower == "not")
    || (upper == "CASE" && lower == "case")
  }

  /** A keyword stands where any spelling of it does, unless it is part of a longer word. */
  lemma KeywordStands(s: string, i: nat, upper: string, lower: string)
    requires IsKeyword(upper, lower)
    ensures KeywordAt(s, i, upper) <==>
            && i + |upper| <= |s| && IsSpelling(s[i..i + |upper|], upper, lower)
            && (i > 0 ==> !InWord(s[i - 1])) && (i + |upper| < |s| ==> !InWord(s[i + |upper|]))
  {
    if i + |upper| <= |s| {
      var word := s[i..i + |upper|];
      assert forall k | 0 <= k < |upper| :: word[k] == s[i + k];
      forall k | 0 <= k < |upper| ensures Upper(word[k]) == upper[k] <==> word[k] == upper[k] || word[k] == lower[k] {
        LetterStands(upper, lower, k, word[k]);
      }
    }
  }

  lemma LetterStands(upper: string, lower: string, k: nat, c: char)
    requires IsKeyword(upper, lower) && k < |upper|
    ensures |upper| == |lower|
    ensures Upper(c) == upper[k] <==> c == upper[k] || c == lower[k]
  {
    assert 'A' <= upper[k] <= 'Z' && lower[k] == 'a' + (upper[k] - 'A');
  }

  /** The last character before `i` that is not white space, if any. */
  ghost predicate LastSolid(s: string, i: nat, k: nat) {
    && k <= i <= |s| && (forall j | k <= j < i :: s[j] in [' ', '\t', '\n', '\r'])
    && (k > 0 ==> s[k - 1] !in [' ', '\t', '\n', '\r'])
  }

  /** A sign is unary exactly when nothing, an opening bracket or an operator stands before it, white space aside. */
  lemma {:induction false} UnaryIff(s: string, i: nat, k: nat)
    requires LastSolid(s, i, k)
    ensures UnarySign(s, i) <==> k == 0 || s[k - 1] in ['(', '[', '+', '-', '*', '/']
    decreases i
  {
    if k < i {
      assert s[i - 1] in [' ', '\t', '\n', '\r'];
      UnaryIff(s, i - 1, k);
    }
  }

  /** A text that begins with CASE, in any spelling, is one operand whatever operators it contains. */
  lemma CaseIsOperand(word: string, rest: string)
    requires IsSpelling(word, "CASE", "case") && rest != "" && !InWord(rest[0]) && !IsSpace(rest[|rest| - 1])
    ensures ParseValue(word + rest) == Some(Operand(word + rest))
  {
    var w := word + rest;
    assert w[0] == word[0] && w[0..4] == word && w[4] == rest[0];
    assert w[|w| - 1] == rest[|rest| - 1];
    KeywordStands(w, 0, "CASE", "case");
    assert Trim(w) == w;
    assert Strip(w) == w;
  }

  // Errors.

  lemma {:induction false} BlankTrims(s: string)
    requires forall c | c in s :: c in [' ', '\t', '\n', '\r']
    ensures TrimStart(s) == "" && Trim(s) == ""
    decreases |s|
  {
    if s != "" {
      assert s[0] in s && forall c | c in s[1..] :: c in s;
      BlankTrims(s[1..]);
    }
  }

  /** A text of white space only is an error to both parsers. */
  lemma BlankFails(s: string)
    requires forall c | c in s :: c in [' ', '\t', '\n', '\r']
    ensures Parse(s) == None && ParseValue(s) == None
  {
    BlankTrims(s);
    assert Strip("") == "";
  }

  /** The scan of a word followed by an operator: the operator is the only one, and not a sign. */
  lemma WordThenOperator(word: string, o: char, i: nat, operators: seq<char>)
    requires word != "" && (forall c | c in word :: InWord(c)) && o in ['+', '-', '*', '/'] && i <= |word|
    requires operators == ADDITIVE || operators == MULTIPLICATIVE
    ensures TopOperator(word + [o], i, operators) <==> i == |word| && o in operators
  {
    var w := word + [o];
    assert IsPlain(w);
    assert IsPlain(w[..i]) && w[..|w|] == w;
    RunPlain(NEUTRAL, None, w[..i]);
    RunPlain(NEUTRAL, None, w);
    if i < |word| {
      assert w[i] == word[i] && word[i] in word;
    } else {
      assert w[i - 1] == word[i - 1] && word[i - 1] in word;
    }
  }

  /** So is an operator after which nothing comes. */
  lemma DanglingOperatorFails(word: string, o: char)
    requires word != "" && (forall c | c in word :: InWord(c)) && o in ['+', '-', '*', '/']
    requires !KeywordAt(word + [o], 0, "CASE")
    ensures ParseValue(word + [o]) == None
  {
    var w := word + [o];
    assert word[0] in word && w[0] == word[0];
    assert Trim(w) == w && Strip(w) == w;
    forall operators, i: nat | (operators == ADDITIVE || operators == MULTIPLICATIVE) && i <= |word|
      ensures TopOperator(w, i, operators) <==> i == |word| && o in operators
    {
      WordThenOperator(word, o, i, operators);
    }
    LastOperatorIs(w, ADDITIVE, |w|);
    LastOperatorIs(w, MULTIPLICATIVE, |w|);
    BlankFails("");
    assert w[|word| + 1..] == "";
    assert LastOperator(w, if o in ADDITIVE then ADDITIVE else MULTIPLICATIVE, |w|) == Some(|word|);
  }
}
