/** What parsing a printed tree comes to when its fields are any words: the first one that the table
    does not have decides.
  */
module QueryFields {
  import opened Options
  import opened Text
  import opened QueryBuilder
  import opened QueryRoundTrip
  import opened QueryTheorem

  ghost predicate GroupFails(g: Grammar, s: string, e: Error, r: string) {
    Line(s + r) && NextNot(s + r) == Nothing(s + r) && Group(g, s + r) == Err(e)
  }

  ghost predicate AtomFails(g: Grammar, s: string, e: Error, r: string) {
    Line(s + r) && Atom(g, s + r) == Err(e)
  }

  ghost predicate ChainFails(g: Grammar, s: string, e: Error, r: string) {
    Line(s + r) && ParseLoop(g, s + r, []) == Err(e)
  }

  lemma LeafFails(g: Grammar, t: Tree, f: string, r: string)
    requires WellFormed(g) && Shaped(g, t) && FirstUnknown(g, t) == Some(f) && Behind(t, r)
    requires !IsChain(t) && !t.Negation?
    ensures GroupFails(g, Print(t), Unknown(g, f), r)
  {
    match t
    case Comparison(_, _, _, _) => ComparisonReads(g, t, r);
    case NullTest(_, _, _) => NullTestReads(g, t, r);
    case Membership(_, _, _, _, _) => MembershipReads(g, t, r);
  }

  lemma BracketFails(g: Grammar, s: string, e: Error, r: string)
    requires Neutral(s) && '\n' !in s && Parse(g, s) == Err(e) && Follows(r)
    ensures GroupFails(g, Bracketed(s), e, r)
  {
    var text := Bracketed(s) + r;
    assert Line(Bracketed(s));
    LineFollowed(Bracketed(s), r);
    StripTrimmed(text);
    assert text[0] == '(';
    BracketFound(s, r);
    assert text[1..|s| + 1] == s;
  }

  lemma NotFails(g: Grammar, s: string, e: Error, r: string)
    requires GroupFails(g, s, e, r)
    ensures AtomFails(g, "not " + s, e, r)
  {
    AppendAssociates("not ", s, r);
    NotLexed(s + r);
  }

  lemma AtomFailsChain(g: Grammar, s: string, e: Error, r: string, stack: seq<Item>)
    requires AtomFails(g, s, e, r)
    ensures ParseLoop(g, s + r, stack) == Err(e)
  {
    StripTrimmed(s + r);
  }

  /** The text of a tree is one line. */
  lemma {:induction false} PrintIsLine(g: Grammar, t: Tree)
    requires WellFormed(g) && Shaped(g, t)
    ensures Line(Print(t)) && Line(RightText(t))
    decreases t, 5
  {
    assert Print(t) + "" == Print(t);
    if FirstUnknown(g, t) == None {
      TreeReads(g, t, "");
    } else {
      TreeFails(g, t, FirstUnknown(g, t).value, "");
    }
    assert Line(Bracketed(Print(t)));
  }

  lemma {:induction false} BracketedFails(g: Grammar, t: Tree, f: string, r: string)
    requires WellFormed(g) && Shaped(g, t) && FirstUnknown(g, t) == Some(f) && Closed(t) && Follows(r)
    ensures GroupFails(g, Bracketed(Print(t)), Unknown(g, f), r)
    decreases t, 6
  {
    TreeFails(g, t, f, "");
    assert Print(t) + "" == Print(t);
    PrintIsNeutral(g, t);
    BracketFails(g, Print(t), Unknown(g, f), r);
  }

  lemma {:induction false} RightFails(g: Grammar, t: Tree, f: string, r: string)
    requires WellFormed(g) && Shaped(g, t) && FirstUnknown(g, t) == Some(f)
    requires if IsChain(t) then Closed(t) && Follows(r) else Behind(t, r)
    ensures AtomFails(g, RightText(t), Unknown(g, f), r)
    decreases t, 7
  {
    if IsChain(t) {
      BracketedFails(g, t, f, r);
    } else {
      TreeFails(g, t, f, r);
    }
  }

  lemma {:induction false} NegationFails(g: Grammar, t: Tree, u: Tree, f: string, r: string)
    requires WellFormed(g) && Shaped(g, t) && FirstUnknown(g, t) == Some(f) && Behind(t, r) && t == Negation(u)
    ensures AtomFails(g, Print(t), Unknown(g, f), r)
    decreases t, 0
  {
    if IsChain(u) || u.Negation? {
      BracketedFails(g, u, f, r);
    } else {
      TreeFails(g, u, f, r);
    }
    NotFails(g, NegatedText(u), Unknown(g, f), r);
  }

  /** What follows the left operand of a connective. */
  lemma RightFollows(g: Grammar, word: string, b: Tree, r: string)
    requires (word == "and" || word == "or") && Line(RightText(b)) && Follows(r)
    ensures Line(RightText(b) + r)
    ensures var tail := " " + (word + (" " + (RightText(b) + r)));
            && Follows(tail) && NoComma(tail) && StopsBare(tail)
            && NextWord(Rest(tail)) == Token(word, RightText(b) + r)
  {
    LineFollowed(RightText(b), r);
    WordInPlace(word, RightText(b) + r);
  }

  lemma {:induction false} JoinFails(g: Grammar, t: Tree, word: string, a: Tree, b: Tree, f: string, r: string)
    requires WellFormed(g) && Shaped(g, t) && FirstUnknown(g, t) == Some(f) && Behind(t, r)
    requires (t == Conjunction(a, b) && word == "and") || (t == Disjunction(a, b) && word == "or")
    ensures ChainFails(g, Print(t), Unknown(g, f), r)
    decreases t, 0
  {
    var tail := " " + (word + (" " + (RightText(b) + r)));
    JoinText(t, word, a, b);
    PrintIsLine(g, b);
    RightFollows(g, word, b, r);
    assert Print(t) + r == Print(a) + tail by {
      ChainText(Print(a), word, RightText(b), r);
      WordTextAssociates(word, RightText(b), r);
    }
    if FirstUnknown(g, a).Some? {
      TreeFails(g, a, f, tail);
    } else {
      TreeReads(g, a, tail);
      RightFails(g, b, f, r);
      ContinueStep(g, [Operandum(Meaning(g, a))], Rest(tail), word, RightText(b) + r);
      AtomFailsChain(g, RightText(b), Unknown(g, f), r, [Operandum(Meaning(g, a))] + [Connective(word)]);
    }
  }

  lemma {:induction false} TreeFails(g: Grammar, t: Tree, f: string, r: string)
    requires WellFormed(g) && Shaped(g, t) && FirstUnknown(g, t) == Some(f) && Behind(t, r)
    ensures ChainFails(g, Print(t), Unknown(g, f), r)
    ensures !IsChain(t) ==> AtomFails(g, Print(t), Unknown(g, f), r)
    ensures !IsChain(t) && !t.Negation? ==> GroupFails(g, Print(t), Unknown(g, f), r)
    decreases t, 4
  {
    if t.Conjunction? {
      JoinFails(g, t, "and", t.left, t.right, f, r);
    } else if t.Disjunction? {
      JoinFails(g, t, "or", t.left, t.right, f, r);
    } else {
      if t.Negation? {
        NegationFails(g, t, t.tree, f, r);
      } else {
        LeafFails(g, t, f, r);
      }
      AtomFailsChain(g, Print(t), Unknown(g, f), r, []);
    }
  }

  /** Parsing a printed tree over any words as fields gives its query when the table has them all, and
      otherwise the error for the first one it does not have: KeyError when only the case is wrong. */
  lemma ParsePrintAnyFields(g: Grammar, t: Tree)
    requires WellFormed(g) && Shaped(g, t)
    ensures Parse(g, Print(t))
            == match FirstUnknown(g, t) case None => Ok(Meaning(g, t)) case Some(f) => Err(Unknown(g, f))
  {
    match FirstUnknown(g, t)
    case None => ParsePrint(g, t);
    case Some(f) =>
      TreeFails(g, t, f, "");
      assert Print(t) + "" == Print(t);
  }

  /** `g` is `f` with its capitals made small. */
  predicate SameButCase(f: string, g: string) {
    |f| == |g| && forall i | 0 <= i < |f| :: g[i] == if 'A' <= f[i] <= 'Z' then f[i] - 'A' + 'a' else f[i]
  }

  /** KeyError exactly when the first unknown field is one of the table's but for capitals. */
  lemma PrintedKeyErrorIff(g: Grammar, t: Tree)
    requires WellFormed(g) && Shaped(g, t)
    ensures Parse(g, Print(t)) == Err(KeyError) <==>
            FirstUnknown(g, t).Some?
            && exists known :: known in g.fields && SameButCase(FirstUnknown(g, t).value, known)
  {
    ParsePrintAnyFields(g, t);
    if FirstUnknown(g, t).Some? {
      var f := FirstUnknown(g, t).value;
      forall known | SameButCase(f, known) ensures known == AsciiLower(f) {
      }
      assert SameButCase(f, AsciiLower(f));
    }
  }
}
