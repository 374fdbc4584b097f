/** Where the query parser drops text, and where it raises a KeyError. */
module QueryErrors {
  import opened Text
  import opened QueryBuilder
  import opened QueryLexing
  import opened QueryRoundTrip
  import opened QueryTheorem
  import opened QueryFields
  import opened QueryVocabulary

  // ----- Text behind an atom

  /** Connectives and values of membership tests, counted. */
  function Weight(q: Query): nat {
    match q
    case Belongs(_, vs) => |vs|
    case Not(p) => Weight(p)
    case And(l, r) => Weight(l) + Weight(r) + 1
    case Or(l, r) => Weight(l) + Weight(r) + 1
    case _ => 0
  }

  /** An error, or a query that holds more than `q`. */
  predicate Beyond(q: Query, r: Result<Query>) {
    r.Ok? ==> Weight(r.value) > Weight(q)
  }

  lemma LoopGoesBeyond(g: Grammar, text: string, q: Query, word: string)
    requires (word == "and" || word == "or") && Strip(text) != ""
    ensures Beyond(q, ParseLoop(g, text, [Operandum(q)] + [Connective(word)]))
    decreases |text|, 2
  {
    match Atom(g, text)
    case Err(_) =>
    case Ok((p, rest)) =>
      PushJoins(q, word, p);
      ContinueGrows(g, if word == "and" then And(q, p) else Or(q, p), rest);
  }

  lemma ContinueGrows(g: Grammar, q: Query, text: string)
    ensures Continue(g, [Operandum(q)], text).Ok? ==> Weight(Continue(g, [Operandum(q)], text).value) >= Weight(q)
    ensures NextWord(text).Token? ==> Beyond(q, Continue(g, [Operandum(q)], text))
    decreases |text|, 3
  {
    var next := NextWord(text);
    if next.Token? && (next.token == "and" || next.token == "or") && next.rest != "" {
      StripTrimmed(next.rest);
      LoopGoesBeyond(g, next.rest, q, next.token);
    }
  }

  /** What is left behind an atom is dropped, and the query stays as it is, exactly when no word begins it. */
  lemma DroppedIff(g: Grammar, q: Query, text: string)
    ensures Continue(g, [Operandum(q)], text) == Ok(q) <==> NextWord(text).Nothing?
  {
    ContinueGrows(g, q, text);
  }

  // ----- A comma behind a membership test

  lemma MoreValuesGrow(text: string, values: seq<string>)
    ensures MoreValues(text, values).Ok? ==> |MoreValues(text, values).value.0| >= |values|
    ensures MoreValues(text, values).Ok? && text != "" && text[0] == ',' ==>
              |MoreValues(text, values).value.0| > |values|
    decreases |text|
  {
    if text != "" && text[0] == ',' {
      match NextValue(text[1..])
      case Nothing(_) =>
      case Token(v, rest) => MoreValuesGrow(rest, values + [v]);
    }
  }

  ghost predicate AtomBeyond(g: Grammar, s: string, q: Query, r: string) {
    Line(s + r) && (Atom(g, s + r).Ok? ==> Weight(Atom(g, s + r).value.0) > Weight(q))
  }

  lemma ValuesGoOn(g: Grammar, t: Tree, r: string)
    requires WellFormed(g) && Valid(g, t) && t.Membership? && Behind(t, r) && !NoComma(r)
    ensures AtomBeyond(g, Print(t), Meaning(g, t), r) && NextNot(Print(t) + r) == Nothing(Print(t) + r)
  {
    MembershipReads(g, t, r);
    MoreValuesBeyond(g, Print(t), r, OperandOf(g, t.field, t.modifier), [t.first.text] + Texts(t.more));
  }

  lemma MoreValuesBeyond(g: Grammar, s: string, r: string, x: Operand, values: seq<string>)
    requires !NoComma(r) && Line(s + r) && NextNot(s + r) == Nothing(s + r)
    requires Group(g, s + r) == match MoreValues(Rest(r), values)
                                case Err(e) => Err(e)
                                case Ok((vs, last)) => Ok((Belongs(x, vs), last))
    ensures AtomBeyond(g, s, Belongs(x, values), r)
  {
    MoreValuesGrow(Rest(r), values);
    GroupIsWhole(g, s + r);
  }

  lemma GroupIsWhole(g: Grammar, s: string)
    requires NextNot(s) == Nothing(s)
    ensures Atom(g, s) == Group(g, s)
  {
  }

  lemma NotGoesOn(g: Grammar, s: string, q: Query, r: string)
    requires AtomBeyond(g, s, q, r) && NextNot(s + r) == Nothing(s + r)
    ensures AtomBeyond(g, "not " + s, Invert(q), r)
  {
    AppendAssociates("not ", s, r);
    NotLexed(s + r);
  }

  lemma BeyondAtom(g: Grammar, s: string, q: Query, r: string)
    requires AtomBeyond(g, s, q, r)
    ensures Beyond(q, ParseLoop(g, s + r, []))
  {
    StripTrimmed(s + r);
    match Atom(g, s + r)
    case Err(_) =>
    case Ok((p, rest)) =>
      assert Push([], p) == [Operandum(p)];
      ContinueGrows(g, p, rest);
  }

  lemma BeyondJoined(g: Grammar, s: string, p: Query, word: string, q: Query, r: string)
    requires AtomBeyond(g, s, q, r) && (word == "and" || word == "or")
    ensures Beyond(if word == "and" then And(p, q) else Or(p, q),
            ParseLoop(g, s + r, [Operandum(p)] + [Connective(word)]))
  {
    StripTrimmed(s + r);
    match Atom(g, s + r)
    case Err(_) =>
    case Ok((x, rest)) =>
      PushJoins(p, word, x);
      ContinueGrows(g, if word == "and" then And(p, x) else Or(p, x), rest);
  }

  lemma {:induction false} JoinGoesOn(g: Grammar, t: Tree, word: string, a: Tree, b: Tree, r: string)
    requires WellFormed(g) && Valid(g, t) && EndsInValues(t) && Behind(t, r) && !NoComma(r)
    requires (t == Conjunction(a, b) && word == "and") || (t == Disjunction(a, b) && word == "or")
    ensures Beyond(Meaning(g, t), ParseLoop(g, Print(t) + r, []))
    decreases t, 0
  {
    var p, tail := Meaning(g, a), " " + (word + (" " + (Print(b) + r)));
    CommaGoesOn(g, b, r);
    PrintIsLine(g, b);
    RightFollows(g, word, b, r);
    JoinText(t, word, a, b);
    assert Print(t) + r == Print(a) + tail by {
      ChainText(Print(a), word, Print(b), r);
      WordTextAssociates(word, Print(b), r);
    }
    TreeReads(g, a, tail);
    ContinueStep(g, [Operandum(p)], Rest(tail), word, Print(b) + r);
    BeyondJoined(g, Print(b), p, word, Meaning(g, b), r);
  }

  /** With a comma behind it, a text that ends in the values of a membership test is refused or gets more values. */
  lemma {:induction false} CommaGoesOn(g: Grammar, t: Tree, r: string)
    requires WellFormed(g) && Valid(g, t) && EndsInValues(t) && Behind(t, r) && !NoComma(r)
    ensures Beyond(Meaning(g, t), ParseLoop(g, Print(t) + r, []))
    ensures !IsChain(t) ==> AtomBeyond(g, Print(t), Meaning(g, t), r)
    ensures t.Membership? ==> NextNot(Print(t) + r) == Nothing(Print(t) + r)
    decreases t, 5
  {
    if t.Conjunction? {
      JoinGoesOn(g, t, "and", t.left, t.right, r);
    } else if t.Disjunction? {
      JoinGoesOn(g, t, "or", t.left, t.right, r);
    } else {
      if t.Negation? {
        CommaGoesOn(g, t.tree, r);
        NotGoesOn(g, Print(t.tree), Meaning(g, t.tree), r);
      } else {
        ValuesGoOn(g, t, r);
      }
      BeyondAtom(g, Print(t), Meaning(g, t), r);
    }
  }

  /** Whatever follows a printed query, with or without a space between, is accepted without a trace exactly
      when no word begins it and it is not a comma behind the values of a membership test. */
  lemma TrailingTextIgnoredIff(g: Grammar, t: Tree, r: string)
    requires WellFormed(g) && Valid(g, t) && Behind(t, r)
    ensures Parse(g, Print(t) + r) == Ok(Meaning(g, t))
            <==> NextWord(r).Nothing? && (EndsInValues(t) ==> NoComma(r))
  {
    if EndsInValues(t) && !NoComma(r) {
      CommaGoesOn(g, t, r);
    } else {
      TreeReads(g, t, r);
      DroppedIff(g, Meaning(g, t), Rest(r));
      FollowsStrips(r);
      StripTrimmed(Rest(r));
    }
  }

  /** No word begins the text exactly when its first character is no letter, digit or underscore. */
  lemma NoWordIff(r: string)
    requires Follows(r)
    ensures NextWord(r).Nothing? <==>
            var c := Rest(r);
            c == "" || !('a' <= c[0] <= 'z' || 'A' <= c[0] <= 'Z' || '0' <= c[0] <= '9' || c[0] == '_')
  {
    FollowsStrips(r);
    StripTrimmed(Rest(r));
    if Rest(r) != "" {
      var n := WordRun(Rest(r));
      assert n == 0 <==> !IsWord(Rest(r)[0]);
      LineRest(Rest(r), n);
    }
  }

  lemma LineRest(s: string, n: nat)
    requires Line(s) && n <= |s|
    ensures RestOfLine(s[n..]).Some?
  {
    LStripWithin(s[n..]);
  }

  lemma {:induction false} LStripWithin(s: string)
    ensures forall c | c in LStrip(s) :: c in s
    decreases |s|
  {
    if s != "" && IsSpace(s[0]) {
      LStripWithin(s[1..]);
    }
  }

  /** So is a stray bracket, and a value after a comparison. */
  lemma StrayTextIgnored(g: Grammar, t: Tree, w: Written)
    requires WellFormed(g) && Valid(g, t) && Good(w)
    ensures Parse(g, Print(t) + " )") == Ok(Meaning(g, t))
    ensures !EndsInBare(t) ==> Parse(g, Print(t) + ")") == Ok(Meaning(g, t))
    ensures t.Comparison? ==> Parse(g, Print(t) + (", " + Spelling(w))) == Ok(Meaning(g, t))
  {
    assert WordRun(")") == 0;
    StripTrimmed(")");
    StripBlank(")");
    assert " " + ")" == " )" && " )"[1..] == ")";
    TrailingTextIgnoredIff(g, t, " )");
    if !EndsInBare(t) {
      TrailingTextIgnoredIff(g, t, ")");
    }
    SpellingIsLine(w);
    var more := ", " + Spelling(w);
    StripTrimmed(more);
    assert WordRun(more) == 0;
    TrailingTextIgnoredIff(g, t, more);
  }

  // ----- Line breaks

  lemma NoWordOverBreak(f: string, r: string)
    requires f != "" && (forall i | 0 <= i < |f| :: IsWord(f[i])) && Trimmed(r) && '\n' in r
    ensures Trimmed(f + (" " + r)) && NextWord(f + (" " + r)) == Nothing(f + (" " + r))
  {
    var text := f + (" " + r);
    WordIsNotSpace(f[0]);
    assert text[|text| - 1] == r[|r| - 1];
    StripTrimmed(text);
    WordRunStops(f, " " + r);
    assert text[|f|..] == " " + r;
    StripBlank(r);
  }

  lemma RefusedAtOnce(g: Grammar, text: string)
    requires Trimmed(text) && text[0] != '(' && NextNot(text) == Nothing(text) && NextWord(text) == Nothing(text)
    ensures Parse(g, text) == Err(ParseError)
  {
    StripTrimmed(text);
    assert Group(g, text) == Predicate(g, text) == Err(ParseError);
    assert Atom(g, text) == Err(ParseError);
  }

  /** A query that begins with a word and has a line break further on is refused. */
  lemma LineBreakRefused(g: Grammar, f: string, r: string)
    requires Word(f) && Trimmed(r) && '\n' in r
    ensures Parse(g, f + (" " + r)) == Err(ParseError)
  {
    assert forall i | 0 <= i < |f| :: IsWord(f[i]);
    NoWordOverBreak(f, r);
    NoNotBefore(f, r);
    assert (f + (" " + r))[0] == f[0];
    RefusedAtOnce(g, f + (" " + r));
  }

  lemma NoNotBefore(f: string, r: string)
    requires Word(f) && Trimmed(f + (" " + r))
    ensures NextNot(f + (" " + r)) == Nothing(f + (" " + r))
  {
    var text := f + (" " + r);
    StripTrimmed(text);
    assert text[|f|] == ' ' && text[..|f|] == f;
    if "not" <= text && |f| > 3 {
      assert text[3] == f[3] && IsWord(f[3]);
    }
  }

  lemma NoNotOverBreak(s: string)
    requires Trimmed(s) && '\n' in s
    ensures NextNot("not" + (" " + s)) == Nothing("not" + (" " + s))
  {
    var text := "not" + (" " + s);
    assert text[|text| - 1] == s[|s| - 1];
    StripTrimmed(text);
    assert text[4..] == s;
  }

  /** So is one that begins with `not`: over a line break that word is taken for a field. */
  lemma NotOverLineBreak(g: Grammar, s: string)
    requires Trimmed(s) && '\n' in s
    ensures Parse(g, "not" + (" " + s)) == Err(ParseError)
  {
    NoNotOverBreak(s);
    assert forall i | 0 <= i < 3 :: IsWord("not"[i]);
    NoWordOverBreak("not", s);
    RefusedAtOnce(g, "not" + (" " + s));
  }

  // ----- Fields in the wrong case

  /** Tokens as the operator alternation can return them. */
  ghost predicate Vocabulary(g: Grammar) {
    Descending(g.ops) && forall t | t in g.ops :: Phrase(t) && t != "" && t in g.canon && t[0] != '"'
  }

  lemma WellFormedVocabulary(g: Grammar)
    requires WellFormed(g)
    ensures Vocabulary(g)
  {
    forall t | t in g.ops ensures Phrase(t) && t != "" && t in g.canon && t[0] != '"' {
      assert OpToken(t);
    }
  }

  /** The first word is a field only when written in lower case. */
  predicate WrongCase(g: Grammar, s: string) {
    var name := NextWord(s);
    name.Token? && AsciiLower(name.token) in g.fields && name.token !in g.fields
  }

  /** The lookup of the field is the only one that can fail. */
  lemma PredicateKeyErrorIff(g: Grammar, s: string)
    requires Vocabulary(g)
    ensures Predicate(g, s) == Err(KeyError) <==> WrongCase(g, s)
  {
    var name := NextWord(s);
    if name.Token? {
      OperatorLookupSucceeds(g, name.rest);
    }
  }

  /** Reading `text`, the parser comes to the bare predicate `s`. */
  ghost predicate ComesTo(g: Grammar, text: string, s: string)
    decreases |text|, 1
  {
    assert |NextNot(text).rest| <= |text|;
    && Strip(text) != ""
    && (|| ComesToInGroup(g, NextNot(text).rest, s)
        || (Atom(g, text).Ok?
            && var w := NextWord(Atom(g, text).value.1);
            w.Token? && (w.token == "and" || w.token == "or") && w.rest != "" && ComesTo(g, w.rest, s)))
  }

  /** The same from a place where a bracket or a predicate is expected. */
  ghost predicate ComesToInGroup(g: Grammar, t: string, s: string)
    decreases |t|, 0
  {
    if t != "" && t[0] == '(' then
      var i := FindClosing(t, 0, START);
      i.Some? && ComesTo(g, t[1..i.value], s)
    else s == t
  }

  lemma GroupKeyErrorIff(g: Grammar, t: string)
    requires Vocabulary(g)
    ensures Group(g, t) == Err(KeyError) <==> exists s :: ComesToInGroup(g, t, s) && WrongCase(g, s)
    decreases |t|, 0
  {
    if t != "" && t[0] == '(' {
      var i := FindClosing(t, 0, START);
      if i.Some? {
        LoopKeyErrorIff(g, t[1..i.value], []);
        assert Parse(g, t[1..i.value]) == ParseLoop(g, t[1..i.value], []);
      }
    } else {
      PredicateKeyErrorIff(g, t);
      assert ComesToInGroup(g, t, t);
    }
  }

  lemma LoopKeyErrorIff(g: Grammar, text: string, stack: seq<Item>)
    requires Vocabulary(g)
    ensures ParseLoop(g, text, stack) == Err(KeyError) <==> exists s :: ComesTo(g, text, s) && WrongCase(g, s)
    decreases |text|, 1
  {
    if Strip(text) != "" {
      var t := NextNot(text).rest;
      assert |t| <= |text|;
      GroupKeyErrorIff(g, t);
      assert Atom(g, text) == Err(KeyError) <==> Group(g, t) == Err(KeyError);
      match Atom(g, text)
      case Err(e) =>
      case Ok((q, rest)) =>
        var w := NextWord(rest);
        if w.Token? && (w.token == "and" || w.token == "or") && w.rest != "" {
          LoopKeyErrorIff(g, w.rest, Push(stack, q) + [Connective(w.token)]);
        }
    }
  }

  /** The parser raises KeyError exactly when it comes to a predicate whose field is in the wrong case. */
  lemma ParseKeyErrorIff(g: Grammar, text: string)
    requires Vocabulary(g)
    ensures Parse(g, text) == Err(KeyError) <==> exists s :: ComesTo(g, text, s) && WrongCase(g, s)
  {
    LoopKeyErrorIff(g, text, []);
  }

  /** So it does with the default vocabulary, whatever the fields. */
  lemma DefaultKeyErrorIff(fields: set<string>, text: string)
    ensures var g := DefaultGrammar(fields);
            Parse(g, text) == Err(KeyError) <==> exists s :: ComesTo(g, text, s) && WrongCase(g, s)
  {
    DefaultGrammarIsWellFormed({});
    WellFormedVocabulary(DefaultGrammar({}));
    ParseKeyErrorIff(DefaultGrammar(fields), text);
  }
}
