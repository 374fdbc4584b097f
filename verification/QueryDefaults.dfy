/** Queries in the built-in vocabulary, and the blanks around any query. */
module QueryDefaults {
  import opened Options
  import opened Text
  import opened QueryBuilder
  import opened QueryLexing
  import opened QueryRoundTrip
  import opened QueryTheorem
  import opened QueryVocabulary

  // ----- Blanks at either end

  predicate IsBlank(c: char) {
    c == ' ' || '\t' <= c <= '\r' || '\U{1C}' <= c <= '\U{1F}'
  }

  ghost predicate Blank(s: string) {
    forall i | 0 <= i < |s| :: IsBlank(s[i])
  }

  lemma {:induction false} BlankBefore(a: string, s: string)
    requires Blank(a)
    ensures LStrip(a + s) == LStrip(s)
    decreases |a|
  {
    if a == "" {
      assert a + s == s;
    } else {
      assert (a + s)[1..] == a[1..] + s;
      BlankBefore(a[1..], s);
    }
  }

  lemma {:induction false} BlankBehind(s: string, b: string)
    requires Blank(b)
    ensures RStrip(s + b) == RStrip(s)
    decreases |b|
  {
    if b == "" {
      assert s + b == s;
    } else {
      assert (s + b)[..|s + b| - 1] == s + b[..|b| - 1];
      BlankBehind(s, b[..|b| - 1]);
    }
  }

  lemma {:induction false} LStripBegins(s: string, b: string)
    ensures LStrip(s + b) == if LStrip(s) == "" then LStrip(b) else LStrip(s) + b
    decreases |s|
  {
    if s == "" {
      assert s + b == b;
    } else if IsSpace(s[0]) {
      assert (s + b)[1..] == s[1..] + b;
      LStripBegins(s[1..], b);
    }
  }

  lemma BlanksStripped(a: string, s: string, b: string)
    requires Blank(a) && Blank(b)
    ensures Strip(a + s + b) == Strip(s)
  {
    assert a + s + b == a + (s + b);
    BlankBefore(a, s + b);
    LStripBegins(s, b);
    BlankBefore(b, "");
    assert b + "" == b;
    BlankBehind(LStrip(s), b);
  }

  lemma ParseOfStripped(g: Grammar, text: string)
    ensures Parse(g, text) == Parse(g, Strip(text))
  {
    var s := Strip(text);
    StripTrimmed(s);
    assert Strip(s) == s && NextNot(text) == NextNot(s);
    assert Atom(g, text) == Atom(g, s);
    assert ParseLoop(g, text, []) == ParseLoop(g, s, []);
  }

  /** White space around a query changes nothing; no other character is white space. */
  lemma BlanksIgnored(g: Grammar, a: string, text: string, b: string, c: char)
    requires Blank(a) && Blank(b) && !IsBlank(c)
    ensures Parse(g, a + text + b) == Parse(g, text)
    ensures Strip([c]) == [c]
  {
    BlanksStripped(a, text, b);
    ParseOfStripped(g, a + text + b);
    ParseOfStripped(g, text);
  }

  // ----- The symbols and `in`

  lemma OperatorsAfterSymbol(u: string)
    requires u in OPERATORS && |u| > 2
    ensures u[0] != '=' && u[0] != '!' && u[0] != '<' && u[0] != '>' && (u[0] == 'i' ==> u[1] == 's')
  {
  }

  lemma AliasesAfterSymbol(u: string)
    requires u in ALIASES && |u| > 2
    ensures (u[0] == 'i' && u[1] == 's') || u[0] == 's'
  {
  }

  lemma NoneGoesOn(op: string, u: string)
    requires op in {"==", "!=", "<", ">", "<=", ">="} && u in DEFAULT_TOKENS && |u| > 2
    ensures u[0] != op[0]
  {
    if u in OPERATORS {
      OperatorsAfterSymbol(u);
    } else {
      AliasesAfterSymbol(u);
    }
  }

  lemma OnlyThose(op: string)
    requires op in {"==", "!=", "<", ">", "<=", ">="}
    ensures op[0] == '=' || op[0] == '!' || op[0] == '<' || op[0] == '>'
  {
  }

  lemma SymbolGoesNotOn(op: string, u: string)
    requires op in {"==", "!=", "<", ">", "<=", ">="} && u in DEFAULT_TOKENS
    ensures !(op + " " <= u)
  {
    if op + " " <= u {
      DefaultTokensSpelled(u);
      assert u[|op|] == ' ' && u[|u| - 1] != ' ';
      assert u[0] == op[0];
      OnlyThose(op);
      NoneGoesOn(op, u);
    }
  }

  /** No token goes on from a symbol, so any value is clear of it. */
  lemma SymbolIsClear(fields: set<string>, op: string, w: Written)
    requires op in {"==", "!=", "<", ">", "<=", ">="}
    ensures Clear(DefaultGrammar(fields), op, w) && op in DefaultGrammar(fields).ops
  {
    SortedDescending(DEFAULT_TOKENS);
    SameMembers(SortDescending(DEFAULT_TOKENS), DEFAULT_TOKENS);
    forall u | u in DEFAULT_TOKENS ensures !(op + " " <= u) {
      SymbolGoesNotOn(op, u);
    }
    SymbolIsToken(op);
  }

  lemma SymbolIsToken(op: string)
    requires op in {"==", "!=", "<", ">", "<=", ">="}
    ensures op in OPERATORS && op in DEFAULT_TOKENS && DEFAULT_OPS[op] == op
  {
    DefaultMeanings(op);
  }

  lemma ComparisonIsValid(fields: set<string>, f: string, op: string, w: Written)
    requires (forall n | n in fields :: FieldName(n)) && f in fields && Good(w)
    requires op in {"==", "!=", "<", ">", "<=", ">="}
    ensures Valid(DefaultGrammar(fields), Comparison(f, NoModifier, op, w))
            && Canonical(DefaultGrammar(fields), op) == op
  {
    SymbolIsClear(fields, op, w);
    SymbolIsToken(op);
  }

  /** A field, a symbol and a value, quoted or not, are a comparison. */
  lemma ComparisonParses(fields: set<string>, f: string, op: string, w: Written)
    requires (forall n | n in fields :: FieldName(n)) && f in fields && Good(w)
    requires op in {"==", "!=", "<", ">", "<=", ">="}
    ensures Parse(DefaultGrammar(fields), f + " " + op + " " + Spelling(w)) == Ok(Compare(Plain(f), op, w.text))
  {
    DefaultGrammarIsWellFormed(fields);
    ComparisonIsValid(fields, f, op, w);
    ParsePrint(DefaultGrammar(fields), Comparison(f, NoModifier, op, w));
  }

  // ----- Any blanks between the parts

  lemma BlankRun(a: string, s: string)
    requires Blank(a) && (s == "" || !IsSpace(s[0]))
    ensures LStrip(a + s) == s
  {
    BlankBefore(a, s);
  }

  lemma WordText(f: string, a: string, s: string)
    requires Word(f) && Blank(a) && Line(s) && !IsWord(s[0])
    ensures var text := f + (a + s);
            && Trimmed(text) && text[..|f|] == f && text[|f|..] == a + s && text[0] != '"'
            && WordRun(text) == |f| && (forall i | 0 <= i < |f| :: !IsSpace(f[i]))
  {
    var text := f + (a + s);
    assert forall i | 0 <= i < |f| :: IsWord(f[i]);
    forall i | 0 <= i < |f| ensures !IsSpace(f[i]) { WordIsNotSpace(f[i]); }
    assert text[|text| - 1] == s[|s| - 1] && text[0] == f[0];
    assert (a + s)[0] == if a == "" then s[0] else a[0];
    WordRunStops(f, a + s);
  }

  /** Blanks, any number of them or none, may stand behind a word, unless it would go on. */
  lemma WordBeforeBlanks(f: string, a: string, s: string)
    requires Word(f) && Blank(a) && Line(s) && !IsWord(s[0])
    ensures NextWord(f + (a + s)) == Token(f, s)
  {
    WordText(f, a, s);
    StripTrimmed(f + (a + s));
    BlankRun(a, s);
    CollapseSpaceless(f);
    StripTrimmed(s);
  }

  lemma LongerFails(op: string, u: string, s: string)
    requires Phrase(op) && op < u && u[|op|] == '=' && s != "" && s[0] != '='
    ensures MatchToken(u, op + s).None?
  {
    var x := u[|op|..];
    assert u == op + x && x[0] == '=';
    MatchSplits(op, x, s);
  }

  lemma SymbolMatches(ops: seq<string>, op: string, s: string)
    requires Descending(ops) && (forall t | t in ops :: Phrase(t)) && op in ops && s != "" && s[0] != '='
    requires forall u | u in ops && op < u :: u[|op|] == '='
    ensures FirstMatch(ops, op + s) < |ops| && ops[FirstMatch(ops, op + s)] == op
    ensures MatchToken(op, op + s) == Some(|op|)
  {
    MatchSplits(op, "", s);
    assert op + "" == op;
    var j :| 0 <= j < |ops| && ops[j] == op;
    LongestTokenWins(ops, op + s, j);
    var u := ops[FirstMatch(ops, op + s)];
    if op < u {
      LongerFails(op, u, s);
    }
  }

  lemma SymbolText(op: string, b: string, s: string)
    requires OpToken(op) && Blank(b) && Line(s)
    ensures Trimmed(op + (b + s)) && (op + (b + s))[..|op|] == op && (op + (b + s))[|op|..] == b + s
    ensures LStrip(b + s) == s && (op + (b + s))[0] != '"'
  {
    var text := op + (b + s);
    assert text[|text| - 1] == s[|s| - 1] && text[0] == op[0];
    BlankRun(b, s);
  }

  lemma PhraseCollapses(op: string)
    requires Phrase(op)
    ensures Collapse(op) == op
  {
    MatchSplits(op, "", "");
    assert op + "" == op;
    MatchedTextIsToken(op, op);
    assert op[..|op|] == op;
  }

  lemma SymbolBeforeBlanks(ops: seq<string>, op: string, b: string, s: string)
    requires Descending(ops) && (forall t | t in ops :: OpToken(t)) && op in ops
    requires Blank(b) && Line(s) && s[0] != '='
    requires forall u | u in ops && op < u :: u[|op|] == '='
    ensures NextOp(ops, op + (b + s)) == Token(op, s)
  {
    assert forall t | t in ops :: OpToken(t) && Phrase(t);
    SymbolText(op, b, s);
    assert (b + s)[0] == if b == "" then s[0] else b[0];
    SymbolMatches(ops, op, b + s);
    StripTrimmed(op + (b + s));
    PhraseCollapses(op);
    StripTrimmed(s);
  }

  lemma NothingBehindSymbol(op: string, u: string)
    requires op in {"==", "!=", "<", ">", "<=", ">="} && u in DEFAULT_TOKENS && op < u
    ensures u[|op|] == '='
  {
    assert u[0] == op[0];
    OnlyThose(op);
    if |u| > 2 {
      NoneGoesOn(op, u);
    } else {
      TwoCharacterTokens(u);
    }
  }

  lemma TwoCharacterTokens(u: string)
    requires u in DEFAULT_TOKENS && |u| == 2
    ensures u[1] == '=' || u[0] == 'i'
  {
  }

  lemma DefaultSymbol(fields: set<string>, op: string, b: string, s: string)
    requires op in {"==", "!=", "<", ">", "<=", ">="} && Blank(b) && Line(s) && s[0] != '='
    ensures NextOp(DefaultGrammar(fields).ops, op + (b + s)) == Token(op, s)
  {
    SymbolTokens(op);
    SymbolBeforeBlanks(SortDescending(DEFAULT_TOKENS), op, b, s);
  }

  lemma SymbolTokens(op: string)
    requires op in {"==", "!=", "<", ">", "<=", ">="}
    ensures var ops := SortDescending(DEFAULT_TOKENS);
            && Descending(ops) && op in ops
            && forall u | u in ops :: OpToken(u) && (op < u ==> u[|op|] == '=')
  {
    SymbolIsToken(op);
    SortedDescending(DEFAULT_TOKENS);
    SameMembers(SortDescending(DEFAULT_TOKENS), DEFAULT_TOKENS);
    forall u | u in SortDescending(DEFAULT_TOKENS) ensures OpToken(u) && (op < u ==> u[|op|] == '=') {
      DefaultTokensSpelled(u);
      if op < u {
        NothingBehindSymbol(op, u);
      }
    }
  }

  /** Field, symbol and value with any blanks between them, or none, are a comparison; the parser stops at a line
      break behind the symbol. */
  lemma SpacedComparison(fields: set<string>, f: string, a: string, op: string, b: string, v: string)
    requires FieldName(f) && f in fields && Blank(a) && Blank(b) && '\n' !in b && GoodValue(v)
    requires op in {"==", "!=", "<", ">", "<=", ">="}
    ensures Predicate(DefaultGrammar(fields), f + (a + (op + (b + Quoted(v))))) == Ok((Compare(Plain(f), op, v), ""))
  {
    var g, s := DefaultGrammar(fields), op + (b + Quoted(v));
    QuotedSymbolIsLine(op, b, v);
    DefaultSymbol(fields, op, b, Quoted(v));
    WordBeforeBlanks(f, a, s);
    SymbolIsToken(op);
    OnlyThose(op);
    PlainField(g, f, f + (a + s), s, op, Quoted(v));
    ComparisonParsed(Plain(f), op, InQuotes(v), "");
    assert Quoted(v) + "" == Quoted(v);
  }

  lemma QuotedSymbolIsLine(op: string, b: string, v: string)
    requires op in {"==", "!=", "<", ">", "<=", ">="} && Blank(b) && '\n' !in b && GoodValue(v)
    ensures Line(Quoted(v)) && Line(op + (b + Quoted(v))) && !IsWord((op + (b + Quoted(v)))[0])
  {
    var s := op + (b + Quoted(v));
    SpellingIsLine(InQuotes(v));
    OnlyThose(op);
    SymbolIsLine(op);
    assert s[0] == op[0] && s[|s| - 1] == '"';
  }

  lemma SymbolIsLine(op: string)
    requires op in {"==", "!=", "<", ">", "<=", ">="}
    ensures '\n' !in op
  {
  }

  lemma NotText(a: string, s: string)
    requires Blank(a) && '\n' !in a && Line(s) && s[0] == '('
    ensures var text := "not" + (a + s);
            && Trimmed(text) && "not" <= text && |text| > 3 && text[3..] == a + s && !IsWord(text[3])
            && '\n' !in text && '\n' !in text[4..]
  {
    var text := "not" + (a + s);
    assert text[|text| - 1] == s[|s| - 1];
    assert text[3] == (a + s)[0] == if a == "" then '(' else a[0];
    assert forall i | 4 <= i < |text| :: text[i] in text;
  }

  lemma NotBeforeBlanks(a: string, s: string)
    requires Blank(a) && '\n' !in a && Line(s) && s[0] == '('
    ensures NextNot("not" + (a + s)) == Token("not", s) && Line("not" + (a + s))
  {
    NotText(a, s);
    BlanksStripped(a, s, "");
    assert a + s + "" == a + s;
    StripTrimmed(s);
    NotLexedFrom("not" + (a + s), s);
  }

  lemma NotLexedFrom(text: string, rest: string)
    requires Trimmed(text) && "not" <= text && |text| > 3 && !IsWord(text[3]) && '\n' !in text[4..]
    requires Strip(text[3..]) == rest
    ensures NextNot(text) == Token("not", rest)
  {
    StripTrimmed(text);
    CollapseSpaceless("not");
    assert text[0] == 'n';
  }

  /** A `not` may stand right before its bracket or any blanks before it. */
  lemma SpacedNegation(g: Grammar, a: string, t: Tree)
    requires WellFormed(g) && Valid(g, t) && Closed(t) && Blank(a) && '\n' !in a
    ensures Parse(g, "not" + (a + Bracketed(Print(t)))) == Ok(Invert(Meaning(g, t)))
  {
    var s := Bracketed(Print(t));
    var text := "not" + (a + s);
    BracketedReads(g, t, "");
    assert s + "" == s;
    NotBeforeBlanks(a, s);
    NegatedGroup(g, text, s, Meaning(g, t), "");
    StripTrimmed(text);
    LoopStep(g, text, [], Invert(Meaning(g, t)), "");
    assert Push([], Invert(Meaning(g, t))) == [Operandum(Invert(Meaning(g, t)))];
  }
}
