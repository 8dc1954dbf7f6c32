/** Which pieces of a text list it, and which are looked up. */
module GvqlTextTerms {
  import opened GvqlExpressions
  import opened GvqlIndexKeys

  /** The configured sizes; a lower bound below one counts as one, an upper one below the lower as the lower. */
  predicate IsGramSize(o: TextOptions, n: nat) {
    n >= 1 && n >= o.minGram && (n <= o.maxGram || n == 1 || n == o.minGram)
  }

  lemma GramSizes(o: TextOptions, n: nat)
    ensures IsGramSize(o, n) <==> LeastGram(o) <= n <= GreatestGram(o)
  {
  }

  lemma PieceTerms(s: string, term: string)
    ensures term == GramTerm(s) ==> |term| == |s| + 5 && term[0] == 'g' && term[5..] == s
    ensures term == PrefixTerm(s) ==> |term| == |s| + 7 && term[0] == 'p' && term[7..] == s
    ensures term == SuffixTerm(s) ==> |term| == |s| + 7 && term[0] == 's' && term[7..] == s
    ensures term == TokenTerm(s) ==> |term| == |s| + 6 && term[0] == 't' && term[6..] == s
  {
  }

  /** A text is listed under a gram exactly when the gram has a configured size and occurs in it. */
  lemma GramListedIff(rt: Runtime, t: string, o: TextOptions, s: string)
    ensures IsIndexTerm(rt, t, o, GramTerm(s)) <==> IsGramSize(o, |s|) && Includes(t, s)
  {
    var term := GramTerm(s);
    PieceTerms(s, term);
    GramSizes(o, |s|);
    forall n: nat | n <= |t| ensures !AffixTermOf(t, n, term) {
      PieceTerms(t[..n], PrefixTerm(t[..n]));
      PieceTerms(t[|t| - n..], SuffixTerm(t[|t| - n..]));
    }
    forall token ensures term != TokenTerm(token) {
      PieceTerms(token, TokenTerm(token));
    }
    forall n: nat ensures GramOf(t, n, term) <==> n == |s| && Includes(t, s) {
      GramOccurs(t, n, s);
    }
    assert GramOf(t, |s|, term) <==> Includes(t, s);
  }

  lemma GramOccurs(t: string, n: nat, s: string)
    ensures GramOf(t, n, GramTerm(s)) <==> n == |s| && Includes(t, s)
  {
    if i :| 0 <= i <= |t| - n && GramTerm(s) == GramTerm(Slice(t, i, n)) {
      PieceTerms(s, GramTerm(s));
      PieceTerms(Slice(t, i, n), GramTerm(s));
      assert OccursAt(t, s, i);
    }
    if n == |s| && Includes(t, s) {
      var i :| 0 <= i <= |t| && OccursAt(t, s, i);
      assert GramTerm(s) == GramTerm(Slice(t, i, n));
    }
  }

  /** Under a prefix or suffix exactly when it is one, neither empty nor longer than 64 characters. */
  lemma AffixListedIff(rt: Runtime, t: string, o: TextOptions, s: string)
    ensures IsIndexTerm(rt, t, o, PrefixTerm(s)) <==> 1 <= |s| <= 64 && HasPrefix(t, s)
    ensures IsIndexTerm(rt, t, o, SuffixTerm(s)) <==> 1 <= |s| <= 64 && HasSuffix(t, s)
  {
    PieceTerms(s, PrefixTerm(s));
    PieceTerms(s, SuffixTerm(s));
    forall token ensures PrefixTerm(s) != TokenTerm(token) && SuffixTerm(s) != TokenTerm(token) {
      PieceTerms(token, TokenTerm(token));
    }
    forall n: nat ensures !GramOf(t, n, PrefixTerm(s)) && !GramOf(t, n, SuffixTerm(s)) {
      forall i: nat | i + n <= |t|
        ensures PrefixTerm(s) != GramTerm(Slice(t, i, n)) && SuffixTerm(s) != GramTerm(Slice(t, i, n)) {
        PieceTerms(Slice(t, i, n), GramTerm(Slice(t, i, n)));
      }
    }
    forall n: nat | n <= |t|
      ensures AffixTermOf(t, n, PrefixTerm(s)) <==> t[..n] == s
      ensures AffixTermOf(t, n, SuffixTerm(s)) <==> t[|t| - n..] == s
    {
      PieceTerms(t[..n], PrefixTerm(t[..n]));
      PieceTerms(t[|t| - n..], SuffixTerm(t[|t| - n..]));
    }
    assert |s| <= |t| && HasPrefix(t, s) ==> t[..|s|] == s;
    assert |s| <= |t| && HasSuffix(t, s) ==> t[|t| - |s|..] == s;
  }

  /** A gram of the needle of the largest configured size that fits. */
  ghost predicate IsLargestGram(needle: string, o: TextOptions, s: string) {
    && IsGramSize(o, |s|) && Includes(needle, s)
    && forall n: nat | IsGramSize(o, n) && n <= |needle| :: n <= |s|
  }

  /** CONTAINS looks up exactly these, and nothing for a needle no configured size fits. */
  lemma LookedUpIff(needle: string, o: TextOptions, s: string)
    ensures GramTerm(s) in LookupTerms(Contains, needle, o) <==> IsLargestGram(needle, o, s)
    ensures LookupTerms(Contains, needle, o) == [] <==> forall n: nat | IsGramSize(o, n) :: n > |needle|
  {
    forall n: nat ensures IsGramSize(o, n) <==> LeastGram(o) <= n <= GreatestGram(o) {
      GramSizes(o, n);
    }
    if needle != "" && |needle| >= LeastGram(o) {
      GramOccurs(needle, LookupSize(needle, o), s);
      assert IsGramSize(o, LookupSize(needle, o));
    } else {
      assert Includes(needle, s) ==> |s| <= |needle|;
    }
  }
}
