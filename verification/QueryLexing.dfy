/** What the query parser's scanners do on any text: the bracket scanner finds the first closing
    bracket outside quotes, the operator alternation takes the longest token, the stack never keeps
    a leftover.
  */
module QueryLexing {
  import opened Options
  import opened Text
  import opened QueryBuilder

  // ----- Brackets

  function Feed(st: Scan, s: string): Scan
    decreases |s|
  {
    if s == "" then st else Feed(Advance(st, s[0]), s[1..])
  }

  lemma {:induction false} FeedAppend(st: Scan, a: string, b: string)
    ensures Feed(st, a + b) == Feed(Feed(st, a), b)
    decreases |a|
  {
    if a == "" {
      assert a + b == b;
    } else {
      assert (a + b)[1..] == a[1..] + b;
      FeedAppend(Advance(st, a[0]), a[1..], b);
    }
  }

  /** Position `i` closes the bracket that was open at depth one, outside quotes. */
  ghost predicate Closes(s: string, st: Scan, from: nat, i: nat)
    requires from <= i <= |s|
  {
    i < |s| && s[i] == ')' && !Feed(st, s[from..i]).quoted && Feed(st, s[from..i]).level == 1
  }

  lemma {:induction false} FindClosingIsFirst(s: string, i: nat, st: Scan)
    requires i <= |s|
    ensures FindClosing(s, i, st).Some? ==> Closes(s, st, i, FindClosing(s, i, st).value)
    ensures forall j | i <= j < (if FindClosing(s, i, st).Some? then FindClosing(s, i, st).value else |s|) ::
              !Closes(s, st, i, j)
    decreases |s| - i
  {
    assert s[i..i] == "";
    if i < |s| && (st.quoted || s[i] != ')' || st.level != 1) {
      var next := Advance(st, s[i]);
      FindClosingIsFirst(s, i + 1, next);
      forall j | i < j <= |s| ensures Closes(s, st, i, j) == Closes(s, next, i + 1, j) {
        assert s[i..j][0] == s[i] && s[i..j][1..] == s[i + 1..j];
      }
    }
  }

  /** The bracket scanner returns the first position, brackets inside quotes aside, where the depth
      comes back to zero; it fails exactly when there is none. */
  lemma ClosingBracketIsFirst(s: string, i: nat)
    requires i < |s|
    ensures FindClosing(s, 0, START) == Some(i) <==>
            Closes(s, START, 0, i) && forall j | 0 <= j < i :: !Closes(s, START, 0, j)
    ensures FindClosing(s, 0, START) == None ==> !Closes(s, START, 0, i)
  {
    FindClosingIsFirst(s, 0, START);
  }

  // ----- Operators

  /** Operator tokens: words separated by single spaces. */
  ghost predicate Phrase(t: string) {
    && (forall i | 0 <= i < |t| :: IsSpace(t[i]) ==> t[i] == ' ')
    && (forall i | 0 <= i < |t| - 1 :: t[i] == ' ' ==> t[i + 1] != ' ')
    && (t != "" ==> t[|t| - 1] != ' ')
  }

  lemma PhraseTail(t: string)
    requires Phrase(t) && t != ""
    ensures Phrase(t[1..])
  {
  }

  /** Of two tokens that match the same text one is a prefix of the other. */
  lemma {:induction false} MatchesNest(t: string, u: string, s: string)
    requires Phrase(t) && Phrase(u) && MatchToken(t, s).Some? && MatchToken(u, s).Some?
    ensures t <= u || u <= t
    decreases |t|
  {
    if t != "" && u != "" {
      PhraseTail(t);
      PhraseTail(u);
      assert t[0] == u[0];
      var k := if t[0] == ' ' then SpaceRun(s) else 1;
      MatchesNest(t[1..], u[1..], s[k..]);
      assert t == [t[0]] + t[1..] && u == [u[0]] + u[1..];
    }
  }

  /** The alternation is tried in reverse order, so the token it takes is the longest one that
      matches, and every other that matches is a prefix of it. */
  lemma LongestTokenWins(ops: seq<string>, s: string, j: nat)
    requires Descending(ops) && forall t | t in ops :: Phrase(t)
    requires j < |ops| && MatchToken(ops[j], s).Some?
    ensures FirstMatch(ops, s) < |ops| && ops[j] <= ops[FirstMatch(ops, s)]
  {
    var i := FirstMatch(ops, s);
    MatchesNest(ops[i], ops[j], s);
    if i < j && ops[i] < ops[j] {
      PrefixIsLess(ops[i], ops[j]);
    }
  }

  /** What the first character of a token takes of the text. */
  function HeadLength(t: string, s: string): nat
    requires t != ""
  {
    if t[0] == ' ' then SpaceRun(s) else 1
  }

  lemma MatchUnfolds(t: string, s: string)
    requires Phrase(t) && t != "" && MatchToken(t, s).Some?
    ensures var k := HeadLength(t, s);
            && 0 < k <= |s| && MatchToken(t[1..], s[k..]).Some?
            && MatchToken(t, s).value == k + MatchToken(t[1..], s[k..]).value
            && (if t[0] == ' ' then t[1..] != "" && IsSpace(s[0]) else s[0] == t[0] && !IsSpace(s[0]))
  {
    PhraseTail(t);
  }

  /** Collapsing a text that begins with a run of spaces, or with one other character. */
  lemma CollapseHead(s: string, k: nat, tail: string)
    requires s != "" && k <= |s| && s[k..] == tail && k == if IsSpace(s[0]) then SpaceRun(s) else 1
    ensures Collapse(s) == [if IsSpace(s[0]) then ' ' else s[0]] + Collapse(tail)
  {
  }

  /** Matched text is the token itself once runs of spaces are collapsed. */
  lemma {:induction false} MatchedTextIsToken(t: string, s: string)
    requires Phrase(t) && MatchToken(t, s).Some?
    ensures Collapse(s[..MatchToken(t, s).value]) == t
    decreases |t|
  {
    if t == "" {
      assert s[..0] == "";
    } else {
      PhraseTail(t);
      MatchUnfolds(t, s);
      var k := HeadLength(t, s);
      MatchedTextIsToken(t[1..], s[k..]);
      MatchedHead(t, s, MatchToken(t[1..], s[k..]).value, MatchToken(t, s).value);
    }
  }

  lemma MatchedHead(t: string, s: string, m: nat, n: nat)
    requires t != "" && s != "" && n == HeadLength(t, s) + m <= |s|
    requires (IsSpace(s[0]) <==> t[0] == ' ') && (t[0] != ' ' ==> s[0] == t[0])
    requires Collapse(s[HeadLength(t, s)..][..m]) == t[1..]
    ensures Collapse(s[..n]) == t
  {
    var k := HeadLength(t, s);
    var head := s[..k + m];
    assert head[k..] == s[k..][..m];
    if t[0] == ' ' {
      SpaceRunPrefix(s, k + m);
    }
    CollapseHead(head, k, s[k..][..m]);
    assert t == [t[0]] + t[1..];
  }

  /** And any text that collapses to the token matches it, however many blanks stand for one space. */
  lemma {:induction false} CollapsedTextMatches(t: string, s: string)
    requires Phrase(t) && Collapse(s) == t
    ensures MatchToken(t, s) == Some(|s|)
    decreases |s|
  {
    if s != "" {
      var k := if IsSpace(s[0]) then SpaceRun(s) else 1;
      CollapseHead(s, k, s[k..]);
      assert t == [if IsSpace(s[0]) then ' ' else s[0]] + Collapse(s[k..]);
      assert t[1..] == Collapse(s[k..]);
      PhraseTail(t);
      CollapsedTextMatches(t[1..], s[k..]);
    }
  }

  lemma {:induction false} SpaceRunPrefix(s: string, n: nat)
    requires SpaceRun(s) <= n <= |s|
    ensures SpaceRun(s[..n]) == SpaceRun(s)
    decreases |s|
  {
    if s != "" && IsSpace(s[0]) {
      assert s[..n][1..] == s[1..][..n - 1];
      SpaceRunPrefix(s[1..], n - 1);
    }
  }

  /** `re_op` finds a token whenever one matches and the line ends with the text; the token it
      returns is always a key of `tokens_ops`, so the lookup after it cannot fail. */
  lemma OperatorLookupSucceeds(g: Grammar, text: string)
    requires Descending(g.ops) && (forall t | t in g.ops :: Phrase(t) && t != "" && t in g.canon && t[0] != '"')
    ensures NextOp(g.ops, text).Token? ==> NextOp(g.ops, text).token in g.ops && NextOp(g.ops, text).token in g.canon
  {
    var s := Strip(text);
    if s != "" && MatchOp(g.ops, s).Some? {
      var t := g.ops[FirstMatch(g.ops, s)];
      MatchedTextIsToken(t, s);
      assert s[0] != '"';
    }
  }

  // ----- The stack

  ghost predicate PendingOrEmpty(stack: seq<Item>) {
    stack == [] || (|stack| == 2 && stack[0].Operandum?
        && (stack[1] == Connective("and") || stack[1] == Connective("or")))
  }

  lemma PushLeavesOne(stack: seq<Item>, q: Query)
    requires PendingOrEmpty(stack)
    ensures |Push(stack, q)| == 1 && Push(stack, q)[0].Operandum?
  {
  }

  lemma NoLeftoverInLoop(g: Grammar, text: string, stack: seq<Item>)
    requires PendingOrEmpty(stack) && (stack == [] || Strip(text) != "")
    ensures ParseLoop(g, text, stack) != Err(LeftoverStack)
    decreases |text|, 2
  {
    if Strip(text) != "" {
      NoLeftoverInAtom(g, text);
      match Atom(g, text)
      case Err(_) =>
      case Ok((q, rest)) =>
        PushLeavesOne(stack, q);
        NoLeftoverInContinue(g, Push(stack, q), rest);
    }
  }

  lemma NoLeftoverInContinue(g: Grammar, stack: seq<Item>, text: string)
    requires |stack| == 1 && stack[0].Operandum?
    ensures Continue(g, stack, text) != Err(LeftoverStack)
    decreases |text|, 3
  {
    var next := NextWord(text);
    if next.Token? && (next.token == "and" || next.token == "or") && next.rest != "" {
      StripTrimmed(next.rest);
      NoLeftoverInLoop(g, next.rest, stack + [Connective(next.token)]);
    }
  }

  lemma NoLeftoverInAtom(g: Grammar, text: string)
    ensures Atom(g, text) != Err(LeftoverStack)
    decreases |text|, 1
  {
    NoLeftoverInGroup(g, NextNot(text).rest);
  }

  lemma NoLeftoverInGroup(g: Grammar, s: string)
    ensures Group(g, s) != Err(LeftoverStack)
    decreases |s|, 0
  {
    if s != "" && s[0] == '(' {
      var i := FindClosing(s, 0, START);
      if i.Some? {
        NoLeftoverInLoop(g, s[1..i.value], []);
        assert Parse(g, s[1..i.value]) == ParseLoop(g, s[1..i.value], []);
      }
    } else {
      PredicateHasNoStack(g, s);
    }
  }

  lemma PredicateHasNoStack(g: Grammar, text: string)
    ensures Predicate(g, text) != Err(LeftoverStack)
  {
  }

  /** The "leftover stack" error cannot happen, on any text. */
  lemma LeftoverStackUnreachable(g: Grammar, text: string)
    ensures Parse(g, text) != Err(LeftoverStack)
  {
    NoLeftoverInLoop(g, text, []);
  }
}
