/** The parser's default vocabulary satisfies what the round trip asks of a grammar, and the
    collapse of double negations keeps the meaning of a query.
  */
module QueryVocabulary {
  import opened Text
  import opened QueryBuilder
  import opened QueryRoundTrip

  const OPERATORS: seq<string> := [
    "upper", "lower", "is null", "is not null", "is true", "is false",
    "==", "!=", "<", ">", "<=", ">=", "belongs", "contains", "startswith"]

  const ALIASES: seq<string> := [
    "is", "is equal", "is equal to", "is not equal", "is not equal to",
    "is less", "is less than", "is greater", "is greater than",
    "is less or equal", "is less or equal than", "is equal or less", "is equal or less than",
    "is greater or equal", "is greater or equal than", "is equal or greater", "is equal or greater than",
    "is in", "in", "starts with"]

  const ALIAS_OPS: map<string, string> := map[
    "is" := "==", "is equal" := "==", "is equal to" := "==",
    "is not equal" := "!=", "is not equal to" := "!=",
    "is less" := "<", "is less than" := "<", "is greater" := ">", "is greater than" := ">",
    "is less or equal" := "<=", "is less or equal than" := "<=",
    "is equal or less" := "<=", "is equal or less than" := "<=",
    "is greater or equal" := ">=", "is greater or equal than" := ">=",
    "is equal or greater" := ">=", "is equal or greater than" := ">=",
    "is in" := "belongs", "in" := "belongs", "starts with" := "startswith"]

  const DEFAULT_TOKENS: seq<string> := OPERATORS + ALIASES

  /** `tokens_ops`: the canonical operators and the default aliases that map to them. */
  const DEFAULT_OPS: map<string, string> := ALIAS_OPS + map t | t in OPERATORS :: t

  function DefaultGrammar(fields: set<string>): Grammar {
    Grammar(fields, SortDescending(DEFAULT_TOKENS), DEFAULT_OPS)
  }

  lemma ModifiersSpelled()
    ensures OpToken("upper")
    ensures OpToken("lower")
  {
  }

  lemma TestsSpelled()
    ensures OpToken("is null")
    ensures OpToken("is not null")
    ensures OpToken("is true")
    ensures OpToken("is false")
  {
  }

  lemma SymbolsSpelled()
    ensures OpToken("==")
    ensures OpToken("!=")
    ensures OpToken("<")
    ensures OpToken(">")
    ensures OpToken("<=")
    ensures OpToken(">=")
  {
  }

  lemma WordsSpelled()
    ensures OpToken("belongs")
    ensures OpToken("contains")
    ensures OpToken("startswith")
  {
  }

  lemma EqualitiesSpelled()
    ensures OpToken("is")
    ensures OpToken("is equal")
    ensures OpToken("is equal to")
    ensures OpToken("is not equal")
    ensures OpToken("is not equal to")
  {
  }

  lemma OrdersSpelled()
    ensures OpToken("is less")
    ensures OpToken("is less than")
    ensures OpToken("is greater")
    ensures OpToken("is greater than")
  {
  }

  lemma LessOrEqualSpelled()
    ensures OpToken("is less or equal")
    ensures OpToken("is less or equal than")
  {
  }

  lemma EqualOrLessSpelled()
    ensures OpToken("is equal or less")
    ensures OpToken("is equal or less than")
  {
  }

  lemma GreaterOrEqualSpelled()
    ensures OpToken("is greater or equal")
    ensures OpToken("is greater or equal than")
  {
  }

  lemma EqualOrGreaterSpelled()
    ensures OpToken("is equal or greater")
    ensures OpToken("is equal or greater than")
  {
  }

  lemma MembershipsSpelled()
    ensures OpToken("is in")
    ensures OpToken("in")
    ensures OpToken("starts with")
  {
  }

  lemma DefaultTokensSpelled(t: string)
    requires t in DEFAULT_TOKENS
    ensures OpToken(t)
  {
    ModifiersSpelled();
    TestsSpelled();
    SymbolsSpelled();
    WordsSpelled();
    EqualitiesSpelled();
    OrdersSpelled();
    LessOrEqualSpelled();
    EqualOrLessSpelled();
    GreaterOrEqualSpelled();
    EqualOrGreaterSpelled();
    MembershipsSpelled();
  }

  lemma DefaultTokensKnown(t: string)
    requires t in DEFAULT_TOKENS
    ensures t in DEFAULT_OPS
  {
    if t !in OPERATORS {
      AliasesOfComparisons(t);
    }
  }

  lemma PrefixAgrees(t: string, u: string, i: nat)
    requires i < |t|
    ensures t < u ==> |u| > |t| && u[i] == t[i]
  {
  }

  /** The modifiers start no longer token. */
  lemma ModifiersAreFinal(u: string)
    requires u in DEFAULT_TOKENS
    ensures !("lower" < u) && !("upper" < u)
  {
    PrefixAgrees("lower", u, 0);
    PrefixAgrees("upper", u, 0);
  }

  /** Nor do the null tests. */
  lemma NullTestsAreFinal(u: string)
    requires u in DEFAULT_TOKENS
    ensures !("is null" < u) && !("is not null" < u)
  {
    PrefixAgrees("is null", u, 3);
    PrefixAgrees("is null", u, 4);
    PrefixAgrees("is not null", u, 3);
    PrefixAgrees("is not null", u, 7);
    if |u| > 7 && u[3] == 'n' {
      if u in OPERATORS {
        OperatorWithNot(u);
      } else {
        AliasWithNot(u);
      }
    }
  }

  lemma OperatorWithNot(u: string)
    requires u in OPERATORS && |u| > 7 && u[3] == 'n'
    ensures u == "is not null"
  {
  }

  lemma AliasWithNot(u: string)
    requires u in ALIASES && |u| > 7 && u[3] == 'n'
    ensures u == "is not equal" || u == "is not equal to"
  {
  }

  lemma DefaultFinalTokens(t: string, u: string)
    requires t in {"lower", "upper", "is null", "is not null"} && u in DEFAULT_TOKENS
    ensures !(t < u)
  {
    ModifiersAreFinal(u);
    NullTestsAreFinal(u);
  }

  lemma AliasesOfComparisons(t: string)
    requires t in ALIASES
    ensures t in ALIAS_OPS && ALIAS_OPS[t] !in {"lower", "upper", "is null", "is not null"}
  {
  }

  lemma FinalOnly(t: string)
    requires t in DEFAULT_TOKENS && t in DEFAULT_OPS && DEFAULT_OPS[t] in {"lower", "upper", "is null", "is not null"}
    ensures t in {"lower", "upper", "is null", "is not null"}
  {
    if t !in OPERATORS {
      AliasesOfComparisons(t);
    }
  }

  lemma SameMembers(a: seq<string>, b: seq<string>)
    requires multiset(a) == multiset(b)
    ensures forall t :: t in a <==> t in b
  {
    forall t ensures t in a <==> t in b {
      assert t in a <==> t in multiset(a);
      assert t in b <==> t in multiset(b);
    }
  }

  /** A vocabulary is fit for the round trip once its tokens are, however they come to be listed. */
  lemma SortedGrammar(fields: set<string>, tokens: seq<string>, canon: map<string, string>)
    requires forall f | f in fields :: FieldName(f)
    requires forall t | t in tokens :: OpToken(t) && t in canon
    requires forall t | t in tokens && canon[t] in {"lower", "upper", "is null", "is not null"} :: Final(tokens, t)
    ensures WellFormed(Grammar(fields, SortDescending(tokens), canon))
  {
    SortedDescending(tokens);
    SameMembers(SortDescending(tokens), tokens);
    forall t | t in tokens && Final(tokens, t) ensures Final(SortDescending(tokens), t) {
    }
  }

  /** The round trip holds for the default vocabulary over any lowercase field names. */
  lemma DefaultGrammarIsWellFormed(fields: set<string>)
    requires forall f | f in fields :: FieldName(f)
    ensures WellFormed(DefaultGrammar(fields))
  {
    forall t | t in DEFAULT_TOKENS ensures OpToken(t) && t in DEFAULT_OPS {
      DefaultTokensSpelled(t);
      DefaultTokensKnown(t);
    }
    forall t | t in DEFAULT_TOKENS && DEFAULT_OPS[t] in {"lower", "upper", "is null", "is not null"}
      ensures Final(DEFAULT_TOKENS, t)
    {
      DefaultOpFinal(t);
    }
    SortedGrammar(fields, DEFAULT_TOKENS, DEFAULT_OPS);
  }

  lemma DefaultOpFinal(t: string)
    requires t in DEFAULT_TOKENS && DEFAULT_OPS[t] in {"lower", "upper", "is null", "is not null"}
    ensures Final(DEFAULT_TOKENS, t)
  {
    FinalOnly(t);
    forall u | u in DEFAULT_TOKENS ensures !(t < u) {
      DefaultFinalTokens(t, u);
    }
  }

  // ----- What the aliases stand for

  ghost predicate StandFor(tokens: seq<string>, op: string) {
    forall i | 0 <= i < |tokens| :: tokens[i] in ALIASES && tokens[i] in ALIAS_OPS && ALIAS_OPS[tokens[i]] == op
  }

  lemma AliasesOfEqual()
    ensures StandFor(["is", "is equal", "is equal to"], "==")
  {
  }

  lemma AliasesOfNotEqual()
    ensures StandFor(["is not equal", "is not equal to"], "!=")
  {
  }

  lemma AliasesOfLess()
    ensures StandFor(["is less", "is less than"], "<")
  {
  }

  lemma AliasesOfGreater()
    ensures StandFor(["is greater", "is greater than"], ">")
  {
  }

  lemma AliasesOfLessOrEqual()
    ensures StandFor(["is less or equal", "is less or equal than", "is equal or less", "is equal or less than"], "<=")
  {
  }

  lemma AliasesOfGreaterOrEqual()
    ensures StandFor(["is greater or equal", "is greater or equal than",
                      "is equal or greater", "is equal or greater than"], ">=")
  {
  }

  lemma AliasesOfTests()
    ensures StandFor(["in", "is in"], "belongs") && StandFor(["starts with"], "startswith")
  {
  }

  lemma OperatorsListed(t: string)
    requires t == "upper" || t == "lower" || t == "is null" || t == "is not null" || t == "is true" || t == "is false"
             || t == "==" || t == "!=" || t == "<" || t == ">" || t == "<=" || t == ">="
             || t == "belongs" || t == "contains" || t == "startswith"
    ensures t in OPERATORS
  {
  }

  /** The built-in operators stand for themselves, the aliases as above. */
  lemma DefaultMeanings(t: string)
    ensures t in OPERATORS ==> t in DEFAULT_OPS && DEFAULT_OPS[t] == t
    ensures t !in OPERATORS && t in ALIAS_OPS ==> t in DEFAULT_OPS && DEFAULT_OPS[t] == ALIAS_OPS[t]
  {
  }

  // ----- Collapse of double negation

  /** The query written out node by node. */
  function Literal(g: Grammar, t: Tree): Query {
    match t
    case Negation(u) => Not(Literal(g, u))
    case Conjunction(l, r) => And(Literal(g, l), Literal(g, r))
    case Disjunction(l, r) => Or(Literal(g, l), Literal(g, r))
    case _ => Meaning(g, t)
  }

  ghost predicate Truth(holds: Query -> bool, q: Query) {
    match q
    case Not(p) => !Truth(holds, p)
    case And(p, r) => Truth(holds, p) && Truth(holds, r)
    case Or(p, r) => Truth(holds, p) || Truth(holds, r)
    case _ => holds(q)
  }

  ghost predicate NoDoubleNot(q: Query) {
    match q
    case Not(p) => !p.Not? && NoDoubleNot(p)
    case And(p, r) => NoDoubleNot(p) && NoDoubleNot(r)
    case Or(p, r) => NoDoubleNot(p) && NoDoubleNot(r)
    case _ => true
  }

  /** The parsed query has no double negation left and holds of the same records as the tree. */
  lemma {:induction false} MeaningCollapses(g: Grammar, t: Tree, holds: Query -> bool)
    ensures Truth(holds, Meaning(g, t)) == Truth(holds, Literal(g, t))
    ensures NoDoubleNot(Meaning(g, t))
    ensures NoDoubleNot(Literal(g, t)) ==> Meaning(g, t) == Literal(g, t)
  {
    match t
    case Negation(u) => MeaningCollapses(g, u, holds);
    case Conjunction(l, r) => MeaningCollapses(g, l, holds); MeaningCollapses(g, r, holds);
    case Disjunction(l, r) => MeaningCollapses(g, l, holds); MeaningCollapses(g, r, holds);
    case _ =>
  }
}
