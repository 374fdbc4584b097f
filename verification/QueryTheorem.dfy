/** The round trip itself: brackets around printed text are found, printed chains are parsed back. */
module QueryTheorem {
  import opened Options
  import opened Text
  import opened QueryBuilder
  import opened QueryLexing
  import opened QueryRoundTrip

  // ----- Printed text keeps the bracket depth

  /** Feeding `s` never closes the bracket that was open at depth one. */
  ghost predicate SafeFeed(st: Scan, s: string)
    decreases |s|
  {
    s == "" || (!(s[0] == ')' && !st.quoted && st.level == 1) && SafeFeed(Advance(st, s[0]), s[1..]))
  }

  lemma {:induction false} SafeAppend(st: Scan, a: string, b: string)
    requires SafeFeed(st, a) && SafeFeed(Feed(st, a), b)
    ensures SafeFeed(st, a + b)
    decreases |a|
  {
    if a == "" {
      assert a + b == b;
    } else {
      assert (a + b)[1..] == a[1..] + b;
      SafeAppend(Advance(st, a[0]), a[1..], b);
    }
  }

  lemma {:induction false} FindClosingSkips(a: string, s: string, b: string, st: Scan)
    requires SafeFeed(st, s)
    ensures FindClosing(a + s + b, |a|, st) == FindClosing(a + s + b, |a| + |s|, Feed(st, s))
    decreases |s|
  {
    if s != "" {
      var first := [s[0]];
      assert s == first + s[1..];
      assert a + s + b == (a + first) + s[1..] + b;
      FindClosingSkips(a + first, s[1..], b, Advance(st, s[0]));
      assert (a + s + b)[|a|] == s[0];
    }
  }

  ghost predicate StaysAt(st: Scan, s: string) {
    SafeFeed(st, s) && Feed(st, s).level == st.level && !Feed(st, s).quoted
  }

  /** From any open depth outside quotes, `s` comes back to the same depth outside quotes. */
  ghost predicate Neutral(s: string) {
    forall st: Scan {:trigger StaysAt(st, s)} | st.level >= 1 && !st.quoted :: StaysAt(st, s)
  }

  lemma NeutralAppend(a: string, b: string)
    requires Neutral(a) && Neutral(b)
    ensures Neutral(a + b)
  {
    forall st: Scan | st.level >= 1 && !st.quoted ensures StaysAt(st, a + b) {
      assert StaysAt(st, a);
      assert StaysAt(Feed(st, a), b);
      StaysAppend(st, a, b);
    }
  }

  lemma StaysAppend(st: Scan, a: string, b: string)
    requires StaysAt(st, a) && StaysAt(Feed(st, a), b)
    ensures StaysAt(st, a + b)
  {
    SafeAppend(st, a, b);
    FeedAppend(st, a, b);
  }

  lemma ThreeNeutral(a: string, b: string, c: string)
    requires Neutral(a) && Neutral(b) && Neutral(c)
    ensures Neutral(a + b + c)
  {
    NeutralAppend(a, b);
    NeutralAppend(a + b, c);
  }

  lemma {:induction false} QuietStays(st: Scan, s: string)
    requires st.level >= 1 && !st.quoted && forall i | 0 <= i < |s| :: s[i] != '"' && s[i] != '(' && s[i] != ')'
    ensures StaysAt(st, s)
    decreases |s|
  {
    if s != "" {
      QuietStays(Advance(st, s[0]), s[1..]);
    }
  }

  lemma QuietIsNeutral(s: string)
    requires forall i | 0 <= i < |s| :: s[i] != '"' && s[i] != '(' && s[i] != ')'
    ensures Neutral(s)
  {
    forall st: Scan | st.level >= 1 && !st.quoted ensures StaysAt(st, s) {
      QuietStays(st, s);
    }
  }

  /** Inside quotes nothing counts, up to the closing quote. */
  lemma {:induction false} InQuotes(v: string, i: nat, st: Scan)
    requires GoodValue(v) && i <= |v| && st.quoted
    requires i > 0 ==> st.prev == Some(v[i - 1])
    requires i == 0 ==> st.prev != Some('\\')
    ensures SafeFeed(st, v[i..] + "\"") && Feed(st, v[i..] + "\"").level == st.level && !Feed(st, v[i..] + "\"").quoted
    decreases |v| - i
  {
    var s := v[i..] + "\"";
    if i < |v| {
      assert s[0] == v[i] && s[1..] == v[i + 1..] + "\"";
      InQuotes(v, i + 1, Advance(st, v[i]));
    } else {
      assert s == "\"" && s[1..] == "";
    }
  }

  /** Brackets in a bare value count, and cancel when they are balanced. */
  lemma {:induction false} BalancedStays(st: Scan, s: string, depth: nat)
    requires !st.quoted && st.level > depth && '"' !in s && Balanced(s, depth)
    ensures SafeFeed(st, s) && Feed(st, s).level == st.level - depth && !Feed(st, s).quoted
    decreases |s|
  {
    if s != "" {
      assert forall c | c in s[1..] :: c in s;
      assert s[0] in s;
      BalancedStays(Advance(st, s[0]), s[1..],
                    if s[0] == '(' then depth + 1 else if s[0] == ')' then depth - 1 else depth);
    }
  }

  lemma SpellingIsNeutral(w: Written)
    requires Good(w) && ClosedValue(w)
    ensures Neutral(Spelling(w))
  {
    match w
    case InQuotes(v) => QuotedIsNeutral(v);
    case Bare(v) =>
      forall st: Scan | st.level >= 1 && !st.quoted ensures StaysAt(st, v) {
        BalancedStays(st, v, 0);
      }
  }

  lemma QuotedIsNeutral(v: string)
    requires GoodValue(v)
    ensures Neutral(Quoted(v))
  {
    forall st: Scan | st.level >= 1 && !st.quoted ensures StaysAt(st, Quoted(v)) {
      assert Quoted(v)[0] == '"' && Quoted(v)[1..] == v[0..] + "\"";
      InQuotes(v, 0, Advance(st, '"'));
    }
  }

  lemma BracketedStays(st: Scan, s: string)
    requires !st.quoted && st.level >= 1 && StaysAt(Advance(st, '('), s)
    ensures StaysAt(st, Bracketed(s))
  {
    var inside := Advance(st, '(');
    var before := Feed(inside, s);
    assert ")"[1..] == "";
    assert SafeFeed(before, ")") && Feed(before, ")") == Advance(before, ')');
    SafeAppend(inside, s, ")");
    FeedAppend(inside, s, ")");
    assert Bracketed(s)[0] == '(' && Bracketed(s)[1..] == s + ")";
  }

  lemma BracketedIsNeutral(s: string)
    requires Neutral(s)
    ensures Neutral(Bracketed(s))
  {
    forall st: Scan | st.level >= 1 && !st.quoted ensures StaysAt(st, Bracketed(s)) {
      assert StaysAt(Advance(st, '('), s);
      BracketedStays(st, s);
    }
  }

  lemma HeadIsNeutral(g: Grammar, f: string, m: Modifier, op: string)
    requires WellFormed(g) && ValidHead(g, f, m, op)
    ensures Neutral(Head(f, m, op) + " ") && Neutral(Head(f, m, op))
  {
    assert Word(f) && OpToken(op);
    assert m.Modified? ==> OpToken(m.token);
    var s := Head(f, m, op);
    forall i | 0 <= i < |s| ensures s[i] != '"' && s[i] != '(' && s[i] != ')' {
    }
    QuietIsNeutral(s);
    QuietIsNeutral(s + " ");
  }

  lemma {:induction false} MoreTextIsNeutral(more: seq<Written>)
    requires AllGood(more) && forall i | 0 <= i < |more| :: ClosedValue(more[i])
    ensures Neutral(MoreText(more))
    decreases |more|
  {
    if more == [] {
      QuietIsNeutral("");
    } else {
      QuietIsNeutral(", ");
      SpellingIsNeutral(more[0]);
      MoreTextIsNeutral(more[1..]);
      ThreeNeutral(", ", Spelling(more[0]), MoreText(more[1..]));
    }
  }

  function RightText(t: Tree): string {
    if IsChain(t) then Bracketed(Print(t)) else Print(t)
  }

  function NegatedText(t: Tree): string {
    if IsChain(t) || t.Negation? then Bracketed(Print(t)) else Print(t)
  }

  lemma {:induction false} PrintIsNeutral(g: Grammar, t: Tree)
    requires WellFormed(g) && Shaped(g, t) && Closed(t)
    ensures Neutral(Print(t))
  {
    match t
    case Everything =>
      QuietIsNeutral("");
      BracketedIsNeutral("");
      assert Bracketed("") == "()";
    case Comparison(f, m, op, w) =>
      HeadIsNeutral(g, f, m, op);
      SpellingIsNeutral(w);
      NeutralAppend(Head(f, m, op) + " ", Spelling(w));
    case NullTest(f, m, op) =>
      HeadIsNeutral(g, f, m, op);
    case Membership(f, m, op, w, ws) =>
      HeadIsNeutral(g, f, m, op);
      SpellingIsNeutral(w);
      MoreTextIsNeutral(ws);
      ThreeNeutral(Head(f, m, op) + " ", Spelling(w), MoreText(ws));
    case Negation(u) =>
      PrintIsNeutral(g, u);
      BracketedIsNeutral(Print(u));
      QuietIsNeutral("not ");
      NeutralAppend("not ", NegatedText(u));
    case Conjunction(l, r) =>
      PrintIsNeutral(g, l);
      PrintIsNeutral(g, r);
      BracketedIsNeutral(Print(r));
      QuietIsNeutral(" and ");
      ThreeNeutral(Print(l), " and ", RightText(r));
    case Disjunction(l, r) =>
      PrintIsNeutral(g, l);
      PrintIsNeutral(g, r);
      BracketedIsNeutral(Print(r));
      QuietIsNeutral(" or ");
      ThreeNeutral(Print(l), " or ", RightText(r));
  }

  lemma BracketFound(s: string, r: string)
    requires Neutral(s)
    ensures FindClosing(Bracketed(s) + r, 0, START) == Some(|s| + 1)
  {
    var text := Bracketed(s) + r;
    var inside := Advance(START, '(');
    assert text[0] == '(';
    assert text == "(" + s + (")" + r);
    assert StaysAt(inside, s);
    FindClosingSkips("(", s, ")" + r, inside);
    assert text[|s| + 1] == ')';
  }

  // ----- Groups in place

  /** `s` is a whole group: parsed as `q` whatever tail follows, and not taken for a `not`. */
  ghost predicate GroupReads(g: Grammar, s: string, q: Query, r: string) {
    && Line(s + r)
    && NextNot(s + r) == Nothing(s + r)
    && Group(g, s + r) == Ok((q, Rest(r)))
  }

  lemma NotANot(f: string, s: string)
    requires Word(f) && Line(f + (" " + s))
    ensures NextNot(f + (" " + s)) == Nothing(f + (" " + s))
  {
    var text := f + (" " + s);
    StripTrimmed(text);
  }

  /** What a predicate on field `f` with this condition comes to. */
  function Outcome(g: Grammar, f: string, condition: Result<(Query, string)>): Result<(Query, string)> {
    if f in g.fields then condition else Err(Unknown(g, f))
  }

  /** A predicate whose head is in place reads as its condition does. */
  lemma PredicateReads(g: Grammar, f: string, m: Modifier, op: string, after: string, text: string)
    requires WellFormed(g) && ValidHead(g, f, m, op)
    requires FollowsOp(g, op, after) && text == Head(f, m, op) + after
    ensures Line(text) && NextNot(text) == Nothing(text)
    ensures Group(g, text) == Outcome(g, f, Condition(OperandOf(g, f, m), Canonical(g, op), Rest(after)))
  {
    HeadParsed(g, f, m, op, after);
    HeadStarts(f, m, op, after);
    PredicateIsGroup(g, f, text);
  }

  lemma PredicateIsGroup(g: Grammar, f: string, text: string)
    requires Word(f) && Line(text) && |text| > |f| && text == f + (" " + text[|f| + 1..])
    ensures NextNot(text) == Nothing(text) && Group(g, text) == Predicate(g, text)
  {
    NotANot(f, text[|f| + 1..]);
    assert text[0] == f[0];
  }

  lemma HeadStarts(f: string, m: Modifier, op: string, after: string)
    requires f != ""
    ensures |Head(f, m, op) + after| > |f|
    ensures Head(f, m, op) + after == f + (" " + (Head(f, m, op) + after)[|f| + 1..])
    ensures (Head(f, m, op) + after)[0] == f[0]
  {
    assert (Head(f, m, op) + after)[|f|] == ' ';
    assert (Head(f, m, op) + after)[..|f|] == f;
  }

  lemma ValueReads(g: Grammar, f: string, m: Modifier, op: string, w: Written, more: string, text: string)
    requires WellFormed(g) && ValidHead(g, f, m, op) && Good(w) && Clear(g, op, w)
    requires AfterValue(w, more) && text == Head(f, m, op) + (" " + (Spelling(w) + more))
    ensures Line(text) && NextNot(text) == Nothing(text)
    ensures Group(g, text) == Outcome(g, f, Condition(OperandOf(g, f, m), Canonical(g, op), Spelling(w) + more))
  {
    ValueFollowsOp(g, op, w, more);
    PredicateReads(g, f, m, op, " " + (Spelling(w) + more), text);
  }

  lemma ComparisonReads(g: Grammar, t: Tree, r: string)
    requires WellFormed(g) && Shaped(g, t) && t.Comparison? && AfterValue(t.value, r)
    ensures Line(Print(t) + r) && NextNot(Print(t) + r) == Nothing(Print(t) + r)
    ensures Group(g, Print(t) + r) == Outcome(g, t.field, Ok((Meaning(g, t), Rest(r))))
  {
    ComparisonParsed(OperandOf(g, t.field, t.modifier), Canonical(g, t.op), t.value, r);
    Associate(Head(t.field, t.modifier, t.op), Spelling(t.value), r);
    ValueReads(g, t.field, t.modifier, t.op, t.value, r, Print(t) + r);
  }

  lemma NullTestReads(g: Grammar, t: Tree, r: string)
    requires WellFormed(g) && Shaped(g, t) && t.NullTest? && Follows(r)
    ensures Line(Print(t) + r) && NextNot(Print(t) + r) == Nothing(Print(t) + r)
    ensures Group(g, Print(t) + r) == Outcome(g, t.field, Ok((Meaning(g, t), Rest(r))))
  {
    FinalFollowed(g, t.op, r);
    PredicateReads(g, t.field, t.modifier, t.op, r, Print(t) + r);
  }

  /** The values go on as long as commas follow. */
  lemma MembershipReads(g: Grammar, t: Tree, r: string)
    requires WellFormed(g) && Shaped(g, t) && t.Membership? && AfterValue(LastOf(t.first, t.more), r)
    ensures Line(Print(t) + r) && NextNot(Print(t) + r) == Nothing(Print(t) + r)
    ensures Group(g, Print(t) + r)
            == Outcome(g, t.field, match MoreValues(Rest(r), [t.first.text] + Texts(t.more))
                                   case Err(e) => Err(e)
                                   case Ok((vs, last)) => Ok((Belongs(OperandOf(g, t.field, t.modifier), vs), last)))
  {
    var head, more := Head(t.field, t.modifier, t.op), MoreText(t.more) + r;
    MoreTextFollows(t.first, t.more, r);
    MembershipParsed(OperandOf(g, t.field, t.modifier), t.first, t.more, r);
    assert Print(t) + r == head + (" " + (Spelling(t.first) + more)) by {
      AppendAssociates(head + " " + Spelling(t.first), MoreText(t.more), r);
      Associate(head, Spelling(t.first), more);
    }
    ValueReads(g, t.field, t.modifier, t.op, t.first, more, Print(t) + r);
  }

  lemma AppendAssociates(a: string, b: string, c: string)
    ensures a + b + c == a + (b + c)
  {
  }

  lemma BracketReads(g: Grammar, s: string, q: Query, r: string)
    requires Neutral(s) && '\n' !in s && Parse(g, s) == Ok(q) && Follows(r)
    ensures GroupReads(g, Bracketed(s), q, r)
  {
    var text := Bracketed(s) + r;
    assert Line(Bracketed(s));
    LineFollowed(Bracketed(s), r);
    StripTrimmed(text);
    assert text[0] == '(';
    BracketFound(s, r);
    assert text[1..|s| + 1] == s;
    assert text[|s| + 2..] == r;
    FollowsStrips(r);
  }

  // ----- Atoms and chains in place

  ghost predicate AtomReads(g: Grammar, s: string, q: Query, r: string) {
    Line(s + r) && Atom(g, s + r) == Ok((q, Rest(r)))
  }

  lemma GroupIsAtom(g: Grammar, s: string, q: Query, r: string)
    requires GroupReads(g, s, q, r)
    ensures AtomReads(g, s, q, r)
  {
  }

  lemma NotLexed(s: string)
    requires Line(s)
    ensures NextNot("not " + s) == Token("not", s) && Line("not " + s)
  {
    var text := "not " + s;
    assert text[|text| - 1] == s[|s| - 1];
    StripTrimmed(text);
    assert text[3..] == " " + s && text[4..] == s;
    StripBlank(s);
    CollapseSpaceless("not");
  }

  lemma NegatedGroup(g: Grammar, text: string, s: string, q: Query, rest: string)
    requires NextNot(text) == Token("not", s) && Group(g, s) == Ok((q, rest))
    ensures Atom(g, text) == Ok((Invert(q), rest))
  {
  }

  lemma NotIsAtom(g: Grammar, s: string, q: Query, r: string)
    requires GroupReads(g, s, q, r)
    ensures AtomReads(g, "not " + s, Invert(q), r)
  {
    AppendAssociates("not ", s, r);
    NotLexed(s + r);
    NegatedGroup(g, "not " + s + r, s + r, q, Rest(r));
  }

  lemma LoopStep(g: Grammar, text: string, stack: seq<Item>, q: Query, rest: string)
    requires Strip(text) != "" && Atom(g, text) == Ok((q, rest))
    ensures ParseLoop(g, text, stack) == Continue(g, Push(stack, q), rest)
  {
  }

  lemma ContinueStep(g: Grammar, stack: seq<Item>, text: string, word: string, rest: string)
    requires NextWord(text) == Token(word, rest) && (word == "and" || word == "or") && rest != ""
    ensures Continue(g, stack, text) == ParseLoop(g, rest, stack + [Connective(word)])
  {
  }

  lemma PushJoins(p: Query, word: string, q: Query)
    requires word == "and" || word == "or"
    ensures Push([Operandum(p)] + [Connective(word)], q) == [Operandum(if word == "and" then And(p, q) else Or(p, q))]
  {
    var stack := [Operandum(p)] + [Connective(word)];
    assert stack[..0] == [];
    assert stack[1] == Connective(word) && stack[0] == Operandum(p);
  }

  lemma WordInPlace(word: string, rest: string)
    requires (word == "and" || word == "or") && Line(rest)
    ensures NextWord(word + (" " + rest)) == Token(word, rest)
    ensures Follows(" " + (word + (" " + rest))) && NoComma(" " + (word + (" " + rest)))
    ensures Rest(" " + (word + (" " + rest))) == word + (" " + rest)
  {
    assert (" " + rest)[1..] == rest;
    assert Line(word);
    WordLexed(word, " " + rest);
    LineFollowed(word, " " + rest);
    assert (" " + (word + (" " + rest)))[1..] == word + (" " + rest);
  }

  /** After a chain read so far, a connective and an atom extend it. */
  lemma ConnectiveReads(g: Grammar, word: string, s: string, p: Query, q: Query, r: string)
    requires word == "and" || word == "or"
    requires AtomReads(g, s, q, r) && Follows(r)
    ensures Follows(" " + word + " " + s + r) && NoComma(" " + word + " " + s + r)
    ensures StopsBare(" " + word + " " + s + r)
    ensures Continue(g, [Operandum(p)], Rest(" " + word + " " + s + r))
            == Continue(g, [Operandum(if word == "and" then And(p, q) else Or(p, q))], Rest(r))
  {
    var rest := s + r;
    WordTextAssociates(word, s, r);
    WordInPlace(word, rest);
    ContinueStep(g, [Operandum(p)], word + (" " + rest), word, rest);
    StripTrimmed(rest);
    LoopStep(g, rest, [Operandum(p)] + [Connective(word)], q, Rest(r));
    PushJoins(p, word, q);
  }

  lemma WordTextAssociates(word: string, s: string, r: string)
    ensures " " + word + " " + s + r == " " + (word + (" " + (s + r)))
  {
  }

  /** The text of a tree, read as a chain from its start. */
  ghost predicate ChainReads(g: Grammar, s: string, q: Query, r: string) {
    Line(s + r) && ParseLoop(g, s + r, []) == Continue(g, [Operandum(q)], Rest(r))
  }

  lemma AtomIsChain(g: Grammar, s: string, q: Query, r: string)
    requires AtomReads(g, s, q, r)
    ensures ChainReads(g, s, q, r)
  {
    StripTrimmed(s + r);
    LoopStep(g, s + r, [], q, Rest(r));
    assert Push([], q) == [Operandum(q)];
  }

  lemma GroupIsChain(g: Grammar, s: string, q: Query, r: string)
    requires GroupReads(g, s, q, r)
    ensures AtomReads(g, s, q, r) && ChainReads(g, s, q, r)
  {
    GroupIsAtom(g, s, q, r);
    AtomIsChain(g, s, q, r);
  }

  lemma ChainIsParsed(g: Grammar, s: string, q: Query)
    requires ChainReads(g, s, q, "")
    ensures Parse(g, s) == Ok(q) && Line(s)
  {
    assert s + "" == s;
  }

  lemma EverythingReads(g: Grammar, r: string)
    requires Follows(r)
    ensures GroupReads(g, Print(Everything), All, r)
  {
    QuietIsNeutral("");
    assert Bracketed("") == "()";
    BracketReads(g, "", All, r);
  }

  /** The text of the tree ends with the values of a membership test. */
  predicate EndsInValues(t: Tree) {
    match t
    case Membership(_, _, _, _, _) => true
    case Negation(u) => !IsChain(u) && !u.Negation? && EndsInValues(u)
    case Conjunction(_, r) => !IsChain(r) && EndsInValues(r)
    case Disjunction(_, r) => !IsChain(r) && EndsInValues(r)
    case _ => false
  }

  /** The text of the tree ends with a bare value. */
  predicate EndsInBare(t: Tree) {
    match t
    case Comparison(_, _, _, w) => w.Bare?
    case Membership(_, _, _, w, ws) => LastOf(w, ws).Bare?
    case Negation(u) => !IsChain(u) && !u.Negation? && EndsInBare(u)
    case Conjunction(_, r) => !IsChain(r) && EndsInBare(r)
    case Disjunction(_, r) => !IsChain(r) && EndsInBare(r)
    case _ => false
  }

  /** What may stand behind the text of a tree: text glued to a bare value would be part of the value. */
  predicate Behind(t: Tree, r: string) {
    Follows(r) && (EndsInBare(t) ==> StopsBare(r))
  }

  /** What may follow the text of a tree without becoming part of it. */
  predicate Tail(t: Tree, r: string) {
    Behind(t, r) && (EndsInValues(t) ==> NoComma(r))
  }

  lemma LeafReads(g: Grammar, t: Tree, r: string)
    requires WellFormed(g) && Valid(g, t) && Tail(t, r) && !IsChain(t) && !t.Negation?
    ensures GroupReads(g, Print(t), Meaning(g, t), r)
  {
    match t
    case Everything => EverythingReads(g, r);
    case Comparison(_, _, _, _) => ComparisonReads(g, t, r);
    case NullTest(_, _, _) => NullTestReads(g, t, r);
    case Membership(_, _, _, _, _) => MembershipReads(g, t, r);
  }

  lemma {:induction false} NegationReads(g: Grammar, t: Tree, u: Tree, r: string)
    requires WellFormed(g) && Valid(g, t) && Tail(t, r) && t == Negation(u)
    ensures AtomReads(g, Print(t), Meaning(g, t), r)
    decreases t, 0
  {
    if IsChain(u) || u.Negation? {
      BracketedReads(g, u, r);
    } else {
      TreeReads(g, u, r);
    }
    NotIsAtom(g, NegatedText(u), Meaning(g, u), r);
  }

  lemma {:induction false} JoinReads(g: Grammar, t: Tree, word: string, a: Tree, b: Tree, r: string)
    requires WellFormed(g) && Valid(g, t) && Tail(t, r)
    requires (t == Conjunction(a, b) && word == "and") || (t == Disjunction(a, b) && word == "or")
    ensures ChainReads(g, Print(a) + (" " + word + " ") + RightText(b), Meaning(g, t), r)
    decreases t, 0
  {
    RightReads(g, b, r);
    ConnectiveReads(g, word, RightText(b), Meaning(g, a), Meaning(g, b), r);
    ChainExtends(g, a, word, RightText(b), Meaning(g, b), r);
  }

  lemma JoinText(t: Tree, word: string, a: Tree, b: Tree)
    requires (t == Conjunction(a, b) && word == "and") || (t == Disjunction(a, b) && word == "or")
    ensures Print(t) == Print(a) + (" " + word + " ") + RightText(b)
  {
    assert " " + "and" + " " == " and " && " " + "or" + " " == " or ";
  }

  lemma {:induction false} TreeReads(g: Grammar, t: Tree, r: string)
    requires WellFormed(g) && Valid(g, t) && Tail(t, r)
    ensures ChainReads(g, Print(t), Meaning(g, t), r)
    ensures !IsChain(t) ==> AtomReads(g, Print(t), Meaning(g, t), r)
    ensures !IsChain(t) && !t.Negation? ==> GroupReads(g, Print(t), Meaning(g, t), r)
    decreases t, 5
  {
    if t.Conjunction? {
      JoinReads(g, t, "and", t.left, t.right, r);
      JoinText(t, "and", t.left, t.right);
    } else if t.Disjunction? {
      JoinReads(g, t, "or", t.left, t.right, r);
      JoinText(t, "or", t.left, t.right);
    } else if t.Negation? {
      NegationReads(g, t, t.tree, r);
      AtomIsChain(g, Print(t), Meaning(g, t), r);
    } else {
      LeafReads(g, t, r);
      GroupIsChain(g, Print(t), Meaning(g, t), r);
    }
  }

  lemma {:induction false} BracketedReads(g: Grammar, t: Tree, r: string)
    requires WellFormed(g) && Valid(g, t) && Closed(t) && Follows(r)
    ensures GroupReads(g, Bracketed(Print(t)), Meaning(g, t), r)
    decreases t, 6
  {
    TreeReads(g, t, "");
    ChainIsParsed(g, Print(t), Meaning(g, t));
    PrintIsNeutral(g, t);
    BracketReads(g, Print(t), Meaning(g, t), r);
  }

  lemma {:induction false} RightReads(g: Grammar, t: Tree, r: string)
    requires WellFormed(g) && Valid(g, t) && (if IsChain(t) then Closed(t) && Follows(r) else Tail(t, r))
    ensures AtomReads(g, RightText(t), Meaning(g, t), r)
    decreases t, 7
  {
    if IsChain(t) {
      BracketedReads(g, t, r);
      GroupIsAtom(g, RightText(t), Meaning(g, t), r);
    } else {
      TreeReads(g, t, r);
    }
  }

  lemma {:induction false} ChainExtends(g: Grammar, a: Tree, word: string, s: string, q: Query, r: string)
    requires WellFormed(g) && Valid(g, a) && Tail(a, " " + word + " " + s + r) && (word == "and" || word == "or")
    requires Continue(g, [Operandum(Meaning(g, a))], Rest(" " + word + " " + s + r))
             == Continue(g, [Operandum(if word == "and" then And(Meaning(g, a), q) else Or(Meaning(g, a), q))], Rest(r))
    ensures ChainReads(g, Print(a) + (" " + word + " ") + s,
                       if word == "and" then And(Meaning(g, a), q) else Or(Meaning(g, a), q), r)
    decreases a, 8
  {
    TreeReads(g, a, " " + word + " " + s + r);
    ChainText(Print(a), word, s, r);
  }

  lemma ChainText(a: string, word: string, s: string, r: string)
    ensures a + (" " + word + " ") + s + r == a + (" " + word + " " + s + r)
  {
  }

  /** Parsing what the printer printed gives the tree's query. */
  lemma ParsePrint(g: Grammar, t: Tree)
    requires WellFormed(g) && Valid(g, t)
    ensures Parse(g, Print(t)) == Ok(Meaning(g, t))
  {
    TreeReads(g, t, "");
    ChainIsParsed(g, Print(t), Meaning(g, t));
  }
}
