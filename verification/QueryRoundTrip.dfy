/** Printing a query tree and parsing the text gives the tree back. */
module QueryRoundTrip {
  import opened Options
  import opened Text
  import opened QueryBuilder
  import opened QueryLexing

  // ----- The printer

  datatype Modifier = NoModifier | Modified(token: string)

  /** A value as a user writes it, between double quotes or without. */
  datatype Written = InQuotes(text: string) | Bare(text: string)

  /** A query as a user writes it: every operator is spelled as one of its tokens. */
  datatype Tree =
    | Everything
    | Comparison(field: string, modifier: Modifier, op: string, value: Written)
    | NullTest(field: string, modifier: Modifier, op: string)
    | Membership(field: string, modifier: Modifier, op: string, first: Written, more: seq<Written>)
    | Negation(tree: Tree)
    | Conjunction(left: Tree, right: Tree)
    | Disjunction(left: Tree, right: Tree)

  function Quoted(v: string): string { "\"" + v + "\"" }

  function Spelling(w: Written): string {
    match w
    case InQuotes(v) => Quoted(v)
    case Bare(v) => v
  }

  function MoreText(more: seq<Written>): string {
    if more == [] then "" else ", " + Spelling(more[0]) + MoreText(more[1..])
  }

  function Texts(ws: seq<Written>): seq<string> {
    if ws == [] then [] else [ws[0].text] + Texts(ws[1..])
  }

  function Head(field: string, modifier: Modifier, op: string): string {
    match modifier
    case NoModifier => field + " " + op
    case Modified(token) => field + " " + token + " " + op
  }

  predicate IsChain(t: Tree) { t.Conjunction? || t.Disjunction? }

  function Bracketed(s: string): string { "(" + s + ")" }

  /** `and` and `or` associate to the left with equal precedence: only a right operand needs brackets. */
  function Print(t: Tree): string {
    match t
    case Everything => "()"
    case Comparison(f, m, op, w) => Head(f, m, op) + " " + Spelling(w)
    case NullTest(f, m, op) => Head(f, m, op)
    case Membership(f, m, op, w, ws) => Head(f, m, op) + " " + Spelling(w) + MoreText(ws)
    case Negation(u) => "not " + (if IsChain(u) || u.Negation? then Bracketed(Print(u)) else Print(u))
    case Conjunction(l, r) => Print(l) + " and " + (if IsChain(r) then Bracketed(Print(r)) else Print(r))
    case Disjunction(l, r) => Print(l) + " or " + (if IsChain(r) then Bracketed(Print(r)) else Print(r))
  }

  function OperandOf(g: Grammar, field: string, m: Modifier): Operand {
    match m
    case NoModifier => Plain(field)
    case Modified(token) => if Canonical(g, token) == "lower" then Lowered(field) else Uppered(field)
  }

  /** The query the tree stands for; `~` collapses a double negation. */
  function Meaning(g: Grammar, t: Tree): Query {
    match t
    case Everything => All
    case Comparison(f, m, op, w) => Compare(OperandOf(g, f, m), Canonical(g, op), w.text)
    case NullTest(f, m, op) =>
      if Canonical(g, op) == "is null" then IsNull(OperandOf(g, f, m)) else NotNull(OperandOf(g, f, m))
    case Membership(f, m, op, w, ws) => Belongs(OperandOf(g, f, m), [w.text] + Texts(ws))
    case Negation(u) => Invert(Meaning(g, u))
    case Conjunction(l, r) => And(Meaning(g, l), Meaning(g, r))
    case Disjunction(l, r) => Or(Meaning(g, l), Meaning(g, r))
  }

  // ----- What can be printed

  /** Quoted values: any text on one line whose quotes are all escaped and that does not end in a backslash. */
  ghost predicate GoodValue(v: string) {
    && (forall i | 0 <= i < |v| && v[i] == '"' :: i > 0 && v[i - 1] == '\\')
    && (v != "" ==> v[|v| - 1] != '\\')
    && '\n' !in v
  }

  /** Values without quotes: any text without blanks, double quotes and commas. */
  ghost predicate GoodBare(v: string) {
    v != "" && forall i | 0 <= i < |v| :: !IsSpace(v[i]) && v[i] != '"' && v[i] != ','
  }

  ghost predicate Good(w: Written) {
    match w
    case InQuotes(v) => GoodValue(v)
    case Bare(v) => GoodBare(v)
  }

  ghost predicate AllGood(ws: seq<Written>) {
    forall i | 0 <= i < |ws| :: Good(ws[i])
  }

  /** Up to the first space. */
  function FirstPart(s: string): string {
    if s == "" || s[0] == ' ' then "" else [s[0]] + FirstPart(s[1..])
  }

  /** No token longer than `op` reaches into a bare value behind it: none has its next word at the beginning of
      the value, or the value as its next word with others to come. */
  ghost predicate Clear(g: Grammar, op: string, w: Written) {
    w.Bare? ==> forall u | u in g.ops && op + " " <= u :: !Reaches(u[|op| + 1..], w.text)
  }

  predicate Reaches(tail: string, v: string) {
    var next := FirstPart(tail);
    (if next == tail then next <= v else next == v) || v + "," <= next
  }

  /** Brackets are closed in the order they are opened. */
  predicate Balanced(s: string, depth: nat) {
    if s == "" then depth == 0
    else if s[0] == '(' then Balanced(s[1..], depth + 1)
    else if s[0] == ')' then depth > 0 && Balanced(s[1..], depth - 1)
    else Balanced(s[1..], depth)
  }

  predicate ClosedValue(w: Written) { w.Bare? ==> Balanced(w.text, 0) }

  /** The brackets in bare values, which the scanner counts, are balanced. */
  predicate Closed(t: Tree) {
    match t
    case Comparison(_, _, _, w) => ClosedValue(w)
    case Membership(_, _, _, w, ws) => ClosedValue(w) && forall i | 0 <= i < |ws| :: ClosedValue(ws[i])
    case Negation(u) => Closed(u)
    case Conjunction(l, r) => Closed(l) && Closed(r)
    case Disjunction(l, r) => Closed(l) && Closed(r)
    case _ => true
  }

  /** What can be written where a field is expected. */
  ghost predicate Word(f: string) {
    && f != "" && f != "not"
    && forall i | 0 <= i < |f| :: 'a' <= f[i] <= 'z' || 'A' <= f[i] <= 'Z' || '0' <= f[i] <= '9' || f[i] == '_'
  }

  ghost predicate FieldName(f: string) {
    Word(f) && AsciiLower(f) == f
  }

  ghost predicate OpToken(t: string) {
    && Phrase(t) && t != "" && !IsSpace(t[0])
    && forall i | 0 <= i < |t| :: t[i] != '"' && t[i] != '(' && t[i] != ')'
  }

  /** Tokens that text other than a value may follow: no longer token starts with them. */
  ghost predicate Final(ops: seq<string>, t: string) {
    forall u | u in ops :: !(t < u)
  }

  ghost predicate WellFormed(g: Grammar) {
    && Descending(g.ops)
    && (forall t | t in g.ops :: OpToken(t) && t in g.canon)
    && (forall t | t in g.ops && g.canon[t] in {"lower", "upper", "is null", "is not null"} :: Final(g.ops, t))
    && (forall f | f in g.fields :: FieldName(f))
  }

  ghost predicate ValidModifier(g: Grammar, m: Modifier) {
    m.Modified? ==> m.token in g.ops && Canonical(g, m.token) in {"lower", "upper"}
  }

  ghost predicate ValidHead(g: Grammar, f: string, m: Modifier, op: string) {
    Word(f) && ValidModifier(g, m) && op in g.ops && Canonical(g, op) !in {"lower", "upper"}
  }

  /** Trees that print as they should, over any words as fields; what is printed in brackets has its own
      brackets balanced. */
  ghost predicate Shaped(g: Grammar, t: Tree) {
    match t
    case Everything => true
    case Comparison(f, m, op, w) =>
      && ValidHead(g, f, m, op) && Good(w) && Clear(g, op, w)
      && Canonical(g, op) in {"==", "!=", "<", ">", "<=", ">=", "contains", "startswith"}
    case NullTest(f, m, op) => ValidHead(g, f, m, op) && Canonical(g, op) in {"is null", "is not null"}
    case Membership(f, m, op, w, ws) =>
      ValidHead(g, f, m, op) && Canonical(g, op) == "belongs" && Good(w) && Clear(g, op, w) && AllGood(ws)
    case Negation(u) => Shaped(g, u) && (IsChain(u) || u.Negation? ==> Closed(u))
    case Conjunction(l, r) => Shaped(g, l) && Shaped(g, r) && (IsChain(r) ==> Closed(r))
    case Disjunction(l, r) => Shaped(g, l) && Shaped(g, r) && (IsChain(r) ==> Closed(r))
  }

  /** The first of the tree's fields, in the order of the text, that the table does not have. */
  function FirstUnknown(g: Grammar, t: Tree): Option<string> {
    match t
    case Everything => None
    case Negation(u) => FirstUnknown(g, u)
    case Conjunction(l, r) => if FirstUnknown(g, l).Some? then FirstUnknown(g, l) else FirstUnknown(g, r)
    case Disjunction(l, r) => if FirstUnknown(g, l).Some? then FirstUnknown(g, l) else FirstUnknown(g, r)
    case _ => if t.field in g.fields then None else Some(t.field)
  }

  ghost predicate Valid(g: Grammar, t: Tree) {
    Shaped(g, t) && FirstUnknown(g, t) == None
  }

  // ----- Text in place

  /** One line of text with something else than space at both ends. */
  predicate Line(s: string) { Trimmed(s) && '\n' !in s }

  /** What may follow a token: nothing, or a line, perhaps after one space. */
  predicate Follows(r: string) {
    r == "" || Line(r) || (r[0] == ' ' && Line(r[1..]))
  }

  /** After the values of a membership test a comma would go on with them. */
  predicate NoComma(r: string) {
    Rest(r) == "" || Rest(r)[0] != ','
  }

  function Rest(r: string): string {
    if r != "" && r[0] == ' ' then r[1..] else r
  }

  lemma FollowsStrips(r: string)
    requires Follows(r)
    ensures LStrip(r) == Strip(r) == Rest(r) && Strip(Rest(r)) == Rest(r) && RestOfLine(r) == Some(Rest(r))
    ensures Rest(r) == "" || Line(Rest(r))
  {
    if r != "" && r[0] == ' ' {
      assert r == " " + r[1..];
      StripBlank(r[1..]);
      StripTrimmed(r[1..]);
    } else {
      StripTrimmed(r);
    }
  }

  lemma LineFollowed(s: string, r: string)
    requires Line(s) && Follows(r)
    ensures Line(s + r)
  {
    if r != "" {
      assert (s + r)[|s + r| - 1] == r[|r| - 1];
    }
  }

  // ----- Tokens in place

  lemma {:induction false} WordRunStops(f: string, r: string)
    requires (forall i | 0 <= i < |f| :: IsWord(f[i])) && (r == "" || !IsWord(r[0]))
    ensures WordRun(f + r) == |f|
    decreases |f|
  {
    if f == "" {
      assert f + r == r;
    } else {
      assert (f + r)[1..] == f[1..] + r;
      WordRunStops(f[1..], r);
    }
  }

  lemma WordLexed(f: string, r: string)
    requires f != "" && (forall i | 0 <= i < |f| :: IsWord(f[i]))
    requires Follows(r) && (r == "" || !IsWord(r[0]))
    ensures NextWord(f + r) == Token(f, Rest(r))
  {
    var s := f + r;
    assert forall i | 0 <= i < |f| :: !IsSpace(f[i]) by {
      forall i | 0 <= i < |f| ensures !IsSpace(f[i]) { WordIsNotSpace(f[i]); }
    }
    assert Line(f);
    LineFollowed(f, r);
    StripTrimmed(s);
    WordRunStops(f, r);
    FollowsStrips(r);
    assert s[|f|..] == r && s[..|f|] == f;
    CollapseSpaceless(f);
  }

  /** Matching a token that begins with `t` against text that begins with `t` comes down to the rest. */
  lemma {:induction false} MatchSplits(t: string, v: string, r: string)
    requires Phrase(t)
    ensures MatchToken(t + v, t + r) == match MatchToken(v, r) case None => None case Some(n) => Some(|t| + n)
    decreases |t|
  {
    if t == "" {
      assert t + v == v && t + r == r;
    } else {
      PhraseTail(t);
      MatchSplits(t[1..], v, r);
      MatchOnSelf(t, v, r);
      assert |t| == 1 + |t[1..]|;
    }
  }

  /** A token's first character, or its one space, matches itself. */
  lemma MatchOnSelf(t: string, v: string, r: string)
    requires Phrase(t) && t != ""
    ensures MatchToken(t + v, t + r)
            == match MatchToken(t[1..] + v, t[1..] + r) case None => None case Some(n) => Some(1 + n)
  {
    assert (t + v)[1..] == t[1..] + v && (t + r)[1..] == t[1..] + r;
    if t[0] == ' ' {
      assert !IsSpace(t[1]);
      assert SpaceRun((t + r)[1..]) == 0;
      assert SpaceRun(t + r) == 1;
    }
  }

  lemma OpMatched(g: Grammar, t: string, r: string)
    requires WellFormed(g) && t in g.ops
    requires forall u | u in g.ops && t < u :: MatchToken(u, t + r).None?
    ensures MatchToken(t, t + r) == Some(|t|)
    ensures FirstMatch(g.ops, t + r) < |g.ops| && g.ops[FirstMatch(g.ops, t + r)] == t
  {
    assert OpToken(t) && forall u | u in g.ops :: OpToken(u) && Phrase(u);
    MatchSplits(t, "", r);
    assert t + "" == t;
    var j :| 0 <= j < |g.ops| && g.ops[j] == t;
    LongestTokenWins(g.ops, t + r, j);
  }

  lemma OpLexed(g: Grammar, t: string, r: string)
    requires WellFormed(g) && t in g.ops && Follows(r)
    requires forall u | u in g.ops && t < u :: MatchToken(u, t + r).None?
    ensures NextOp(g.ops, t + r) == Token(t, Rest(r))
  {
    OpMatched(g, t, r);
    assert OpToken(t);
    TokenTaken(g.ops, t, r);
  }

  lemma TokenTaken(ops: seq<string>, t: string, r: string)
    requires OpToken(t) && Follows(r) && MatchToken(t, t + r) == Some(|t|)
    requires FirstMatch(ops, t + r) < |ops| && ops[FirstMatch(ops, t + r)] == t
    ensures NextOp(ops, t + r) == Token(t, Rest(r))
  {
    var s := t + r;
    assert Line(t);
    LineFollowed(t, r);
    StripTrimmed(s);
    FollowsStrips(r);
    assert s[|t|..] == r && s[..|t|] == t;
    MatchedTextIsToken(t, s);
  }

  /** No longer token reaches over a quote. */
  lemma ExtensionStopsAtQuote(g: Grammar, t: string, u: string, r: string)
    requires WellFormed(g) && t in g.ops && u in g.ops && t < u
    ensures MatchToken(u, t + (" \"" + r)).None?
  {
    var v := u[|t|..];
    assert u == t + v;
    MatchSplits(t, v, " \"" + r);
    assert v[0] == u[|t|];
    if v[0] == ' ' {
      assert |v| > 1 && v[1] == u[|t| + 1];
      assert (" \"" + r)[1..][0] == '"';
      assert SpaceRun((" \"" + r)[1..]) == 0;
      assert SpaceRun(" \"" + r) == 1;
    }
  }

  /** The first double quote that no backslash precedes closes. */
  lemma {:induction false} ClosingFirst(s: string, n: nat, i: nat, last: nat)
    requires 1 <= i <= n < |s| && last < i && (last > 0 ==> s[last] == '"')
    requires s[n] == '"' && s[n - 1] != '\\' && forall k | 0 < k < n && s[k] == '"' :: s[k - 1] == '\\'
    ensures ClosingQuote(s, i, last) == n
    decreases n - i
  {
    if i < n {
      ClosingFirst(s, n, i + 1, if s[i] == '"' then i else last);
    }
  }

  /** The text between the quotes, once it is known where the closing one is. */
  lemma QuotedTaken(v: string, r: string)
    requires '\n' !in v && Follows(r) && ClosingQuote(Quoted(v) + r, 1, 0) == |v| + 1
    ensures NextValue(Quoted(v) + r) == Token(v, Rest(r))
  {
    var s := Quoted(v) + r;
    assert Line(Quoted(v));
    LineFollowed(Quoted(v), r);
    StripTrimmed(s);
    FollowsStrips(r);
    assert s[|v| + 2..] == r && s[..|v| + 2] == Quoted(v);
    assert Quoted(v)[1..|v| + 1] == v;
  }

  lemma QuotedCloses(v: string, r: string)
    requires GoodValue(v)
    ensures ClosingQuote(Quoted(v) + r, 1, 0) == |v| + 1
  {
    var s := Quoted(v) + r;
    assert forall k | 0 <= k < |v| :: s[k + 1] == v[k];
    ClosingFirst(s, |v| + 1, 1, 0);
  }

  lemma QuotedLexed(v: string, r: string)
    requires GoodValue(v) && Follows(r)
    ensures NextValue(Quoted(v) + r) == Token(v, Rest(r))
  {
    QuotedCloses(v, r);
    QuotedTaken(v, r);
  }

  lemma {:induction false} NoClosingAfter(s: string, i: nat, last: nat)
    requires 1 <= i <= |s| && last < i && (last > 0 ==> s[last] == '"')
    requires forall k | i <= k < |s| :: s[k] != '"'
    ensures ClosingQuote(s, i, last) == last
    decreases |s| - i
  {
    if i < |s| {
      NoClosingAfter(s, i + 1, last);
    }
  }

  lemma {:induction false} ClosingLast(s: string, n: nat, i: nat, last: nat)
    requires 1 <= i <= n < |s| && last < i && (last > 0 ==> s[last] == '"')
    requires s[n] == '"' && (forall k | 0 < k <= n && s[k] == '"' :: s[k - 1] == '\\')
    requires forall k | n < k < |s| :: s[k] != '"'
    ensures ClosingQuote(s, i, last) == n
    decreases n - i
  {
    if i == n {
      NoClosingAfter(s, n + 1, n);
    } else {
      ClosingLast(s, n, i + 1, if s[i] == '"' then i else last);
    }
  }

  /** A quoted value may end in a backslash when no double quote follows in the line. */
  lemma BackslashLexed(v: string, r: string)
    requires v != "" && v[|v| - 1] == '\\' && '\n' !in v && '"' !in r && Follows(r)
    requires forall i | 0 <= i < |v| && v[i] == '"' :: i > 0 && v[i - 1] == '\\'
    ensures NextValue(Quoted(v) + r) == Token(v, Rest(r))
  {
    var s := Quoted(v) + r;
    assert forall k | 0 <= k < |v| :: s[k + 1] == v[k];
    assert forall k | |v| + 2 <= k < |s| :: s[k] == r[k - |v| - 2];
    ClosingLast(s, |v| + 1, 1, 0);
    QuotedTaken(v, r);
  }

  /** What ends a bare value. */
  predicate StopsBare(r: string) {
    r == "" || r[0] == ' ' || r[0] == ',' || r[0] == '"'
  }

  /** What may follow a value. */
  predicate AfterValue(w: Written, r: string) {
    Follows(r) && (w.Bare? ==> StopsBare(r))
  }

  lemma {:induction false} BareRunStops(v: string, r: string)
    requires (forall i | 0 <= i < |v| :: v[i] != ' ' && v[i] != '"' && v[i] != ',') && StopsBare(r)
    ensures BareRun(v + r) == |v|
    decreases |v|
  {
    if v == "" {
      assert v + r == r;
    } else {
      assert (v + r)[1..] == v[1..] + r;
      BareRunStops(v[1..], r);
    }
  }

  /** A bare value is read up to a blank, a comma or a double quote. */
  lemma BareLexed(v: string, r: string)
    requires GoodBare(v) && Follows(r) && StopsBare(r)
    ensures NextValue(v + r) == Token(v, Rest(r))
  {
    var s := v + r;
    assert Line(v);
    LineFollowed(v, r);
    StripTrimmed(s);
    BareRunStops(v, r);
    FollowsStrips(r);
    assert s[|v|..] == r && s[..|v|] == v;
    CollapseSpaceless(v);
  }

  lemma ValueLexed(w: Written, r: string)
    requires Good(w) && AfterValue(w, r)
    ensures NextValue(Spelling(w) + r) == Token(w.text, Rest(r))
  {
    match w
    case InQuotes(v) => QuotedLexed(v, r);
    case Bare(v) => BareLexed(v, r);
  }

  // ----- Predicates in place

  lemma SpellingIsLine(w: Written)
    requires Good(w)
    ensures Line(Spelling(w)) && Line(", " + Spelling(w))
  {
    var s := ", " + Spelling(w);
    assert s[|s| - 1] == Spelling(w)[|Spelling(w)| - 1];
    if w.Bare? {
      assert IsSpace('\n');
    }
  }

  lemma CommaSplits(q: string, m: string, r: string)
    ensures ", " + q + m + r == ", " + q + (m + r)
    ensures ", " + q + m + r == "," + (" " + (q + (m + r)))
  {
  }

  lemma MoreTextUnfolds(more: seq<Written>, r: string)
    requires more != []
    ensures MoreText(more) + r == ", " + Spelling(more[0]) + (MoreText(more[1..]) + r)
    ensures MoreText(more) + r == "," + (" " + (Spelling(more[0]) + (MoreText(more[1..]) + r)))
  {
    var q, m := Spelling(more[0]), MoreText(more[1..]);
    assert MoreText(more) == ", " + q + m;
    CommaSplits(q, m, r);
  }

  /** The last value of a list, `w` when there is none. */
  function LastOf(w: Written, more: seq<Written>): Written {
    if more == [] then w else more[|more| - 1]
  }

  /** Behind each value of a list comes what may follow it. */
  lemma {:induction false} MoreTextFollows(w: Written, more: seq<Written>, r: string)
    requires AllGood(more) && AfterValue(LastOf(w, more), r)
    ensures AfterValue(w, MoreText(more) + r)
    decreases |more|
  {
    if more == [] {
      assert MoreText(more) + r == r;
    } else {
      MoreTextFollows(more[0], more[1..], r);
      SpellingIsLine(more[0]);
      LineFollowed(", " + Spelling(more[0]), MoreText(more[1..]) + r);
      MoreTextUnfolds(more, r);
    }
  }

  lemma BlankValueLexed(w: Written, r: string)
    requires Good(w) && AfterValue(w, r)
    ensures NextValue(" " + (Spelling(w) + r)) == Token(w.text, Rest(r))
  {
    SpellingIsLine(w);
    LineFollowed(Spelling(w), r);
    StripBlank(Spelling(w) + r);
    StripTrimmed(Spelling(w) + r);
    ValueLexed(w, r);
  }

  lemma MoreValuesStep(text: string, w: Written, rest: string, values: seq<string>)
    requires text == "," + (" " + (Spelling(w) + rest)) && Good(w) && AfterValue(w, rest)
    ensures Rest(text) == text && MoreValues(text, values) == MoreValues(Rest(rest), values + [w.text])
  {
    assert text[1..] == " " + (Spelling(w) + rest);
    BlankValueLexed(w, rest);
  }

  lemma ValuesStep(more: seq<Written>, values: seq<string>, r: string)
    requires more != [] && AllGood(more) && AfterValue(more[|more| - 1], r)
    ensures MoreValues(Rest(MoreText(more) + r), values)
            == MoreValues(Rest(MoreText(more[1..]) + r), values + [more[0].text])
  {
    var rest := MoreText(more[1..]) + r;
    MoreTextFollows(more[0], more[1..], r);
    MoreTextUnfolds(more, r);
    MoreValuesStep("," + (" " + (Spelling(more[0]) + rest)), more[0], rest, values);
  }

  lemma {:induction false} ValuesParsed(more: seq<Written>, values: seq<string>, r: string)
    requires AllGood(more) && Follows(r) && (more != [] ==> AfterValue(more[|more| - 1], r))
    ensures MoreValues(Rest(MoreText(more) + r), values) == MoreValues(Rest(r), values + Texts(more))
    decreases |more|
  {
    if more == [] {
      assert MoreText(more) + r == r;
      assert values + Texts(more) == values;
    } else {
      ValuesStep(more, values, r);
      ValuesParsed(more[1..], values + [more[0].text], r);
      MoveFirst(values, more[0].text, Texts(more[1..]));
    }
  }

  lemma MoveFirst(values: seq<string>, v: string, others: seq<string>)
    ensures values + [v] + others == values + ([v] + others)
  {
  }

  // ----- Predicates in place

  /** Text after the operator of a predicate, and what the parser makes of it. */
  lemma ComparisonParsed(x: Operand, op: string, w: Written, r: string)
    requires op in {"==", "!=", "<", ">", "<=", ">=", "contains", "startswith"} && Good(w) && AfterValue(w, r)
    ensures Condition(x, op, Spelling(w) + r) == Ok((Compare(x, op, w.text), Rest(r)))
  {
    ValueLexed(w, r);
  }

  lemma MembershipParsed(x: Operand, w: Written, more: seq<Written>, r: string)
    requires Good(w) && AllGood(more) && AfterValue(LastOf(w, more), r)
    ensures Condition(x, "belongs", Spelling(w) + (MoreText(more) + r))
            == match MoreValues(Rest(r), [w.text] + Texts(more))
               case Err(e) => Err(e)
               case Ok((vs, last)) => Ok((Belongs(x, vs), last))
  {
    MoreTextFollows(w, more, r);
    ValueLexed(w, MoreText(more) + r);
    ValuesParsed(more, [w.text], r);
    BelongsParsed(x, Spelling(w) + (MoreText(more) + r), w.text, Rest(MoreText(more) + r));
  }

  lemma BelongsParsed(x: Operand, text: string, v: string, rest: string)
    requires NextValue(text) == Token(v, rest)
    ensures Condition(x, "belongs", text)
            == match MoreValues(rest, [v])
               case Err(e) => Err(e)
               case Ok((vs, last)) => Ok((Belongs(x, vs), last))
  {
  }

  /** `after` follows an operator token directly, and no longer token reaches into it. */
  ghost predicate FollowsOp(g: Grammar, op: string, after: string) {
    && Follows(after)
    && forall u | u in g.ops && op < u :: MatchToken(u, op + after).None?
  }

  /** A token that matches has its first word at the beginning of the text, and a space behind it if it goes on. */
  lemma {:induction false} MatchedPart(u: string, s: string)
    requires MatchToken(u, s).Some?
    ensures FirstPart(u) <= s && (FirstPart(u) < u ==> |s| > |FirstPart(u)| && IsSpace(s[|FirstPart(u)|]))
    decreases |u|
  {
    if u != "" && u[0] != ' ' {
      MatchedPart(u[1..], s[1..]);
      assert s == [s[0]] + s[1..] && u == [u[0]] + u[1..];
    }
  }

  lemma {:induction false} PartIsBegin(u: string)
    ensures FirstPart(u) <= u && ' ' !in FirstPart(u)
    ensures forall i | 0 <= i < |FirstPart(u)| :: FirstPart(u)[i] == u[i]
    decreases |u|
  {
    if u != "" && u[0] != ' ' {
      PartIsBegin(u[1..]);
      assert u == [u[0]] + u[1..];
    }
  }

  /** Only a token that reaches into the value can match. */
  lemma MatchedReaches(tail: string, v: string, r: string)
    requires GoodBare(v) && StopsBare(r) && '"' !in tail && MatchToken(tail, v + r).Some?
    ensures Reaches(tail, v)
  {
    MatchedPart(tail, v + r);
    PartIsBegin(tail);
    if |FirstPart(tail)| <= |v| {
      PartWithin(FirstPart(tail), tail, v, r);
    } else {
      PartBeyond(FirstPart(tail), tail, v, r);
    }
  }

  lemma PartWithin(next: string, tail: string, v: string, r: string)
    requires GoodBare(v) && next <= v + r && |next| <= |v|
    requires next < tail ==> |v + r| > |next| && IsSpace((v + r)[|next|])
    ensures next <= v && (next < tail ==> next == v)
  {
    assert (v + r)[..|next|] == v[..|next|];
    if |next| < |v| {
      assert (v + r)[|next|] == v[|next|];
    }
  }

  lemma PartBeyond(next: string, tail: string, v: string, r: string)
    requires StopsBare(r) && next <= v + r && |next| > |v| && next <= tail && '"' !in tail && ' ' !in next
    ensures v + "," <= next
  {
    assert next[|v|] == (v + r)[|v|] == r[0];
    assert next[..|v|] == (v + r)[..|v|] == v;
    assert next[|v|] in next && next[|v|] == tail[|v|] && tail[|v|] in tail;
    assert next == v + [next[|v|]] + next[|v| + 1..];
  }

  lemma ExtensionStopsAtBare(g: Grammar, t: string, u: string, v: string, r: string)
    requires WellFormed(g) && t in g.ops && u in g.ops && t < u && Clear(g, t, Bare(v)) && GoodBare(v) && StopsBare(r)
    ensures MatchToken(u, t + (" " + (v + r))).None?
  {
    var x, s := u[|t|..], " " + (v + r);
    assert u == t + x;
    MatchSplits(t, x, s);
    if x[0] == ' ' {
      assert x[1..] == u[|t| + 1..];
      assert t + " " <= u;
      assert s[1..] == v + r && !IsSpace(s[1]);
      assert SpaceRun(s[1..]) == 0 && SpaceRun(s) == 1;
      assert '"' !in x[1..] by {
        assert OpToken(u);
      }
      if MatchToken(x[1..], v + r).Some? {
        MatchedReaches(x[1..], v, r);
      }
    }
  }

  lemma ValueFollowsOp(g: Grammar, op: string, w: Written, r: string)
    requires WellFormed(g) && op in g.ops && Good(w) && Clear(g, op, w) && AfterValue(w, r)
    ensures FollowsOp(g, op, " " + (Spelling(w) + r)) && Rest(" " + (Spelling(w) + r)) == Spelling(w) + r
  {
    SpellingIsLine(w);
    LineFollowed(Spelling(w), r);
    var after := " " + (Spelling(w) + r);
    assert after[1..] == Spelling(w) + r;
    match w
    case InQuotes(v) =>
      assert after == " \"" + (v + "\"" + r);
      forall u | u in g.ops && op < u ensures MatchToken(u, op + after).None? {
        ExtensionStopsAtQuote(g, op, u, v + "\"" + r);
      }
    case Bare(v) =>
      forall u | u in g.ops && op < u ensures MatchToken(u, op + after).None? {
        ExtensionStopsAtBare(g, op, u, v, r);
      }
  }

  lemma FinalFollowed(g: Grammar, op: string, r: string)
    requires WellFormed(g) && op in g.ops && Final(g.ops, op) && Follows(r)
    ensures FollowsOp(g, op, r)
  {
  }

  /** Field, possible modifier and operator are read as printed. */
  lemma HeadParsed(g: Grammar, f: string, m: Modifier, op: string, after: string)
    requires WellFormed(g) && ValidHead(g, f, m, op) && FollowsOp(g, op, after)
    ensures Line(Head(f, m, op) + after)
    ensures Predicate(g, Head(f, m, op) + after)
            == if f in g.fields then Condition(OperandOf(g, f, m), Canonical(g, op), Rest(after))
               else Err(Unknown(g, f))
  {
    var s := op + after;
    OpInPlace(g, op, after);
    match m
    case NoModifier =>
      PlainParsed(g, f, s, op, Rest(after));
      Associate(f, op, after);
    case Modified(token) =>
      ModifierInPlace(g, token, s);
      ModifiedParsed(g, f, token, s, op, Rest(after));
      Associate(f + " " + token, op, after);
      Associate(f, token, " " + s);
  }

  lemma Associate(a: string, b: string, c: string)
    ensures a + " " + b + c == a + (" " + (b + c))
    ensures a + (" " + (b + c)) == a + " " + b + c
  {
  }

  /** The error for a word that is not a field of the table. */
  function Unknown(g: Grammar, f: string): Error {
    if AsciiLower(f) in g.fields then KeyError else ParseError
  }

  lemma UnknownField(g: Grammar, f: string, s: string)
    requires Word(f) && f !in g.fields && NextWord(s).Token? && NextWord(s).token == f
    ensures Predicate(g, s) == Err(Unknown(g, f))
  {
  }

  lemma PlainParsed(g: Grammar, f: string, s: string, op: string, rest: string)
    requires WellFormed(g) && ValidHead(g, f, NoModifier, op) && Line(s) && NextOp(g.ops, s) == Token(op, rest)
    ensures Line(f + (" " + s))
    ensures Predicate(g, f + (" " + s))
            == if f in g.fields then Condition(Plain(f), Canonical(g, op), rest) else Err(Unknown(g, f))
  {
    FieldLexed(f, s);
    if f in g.fields {
      PlainField(g, f, f + (" " + s), s, op, rest);
    } else {
      UnknownField(g, f, f + (" " + s));
    }
  }

  lemma PlainField(g: Grammar, f: string, text: string, s: string, op: string, rest: string)
    requires FieldName(f) && f in g.fields && NextWord(text) == Token(f, s)
    requires NextOp(g.ops, s) == Token(op, rest) && op in g.canon && g.canon[op] != "lower" && g.canon[op] != "upper"
    ensures Predicate(g, text) == Condition(Plain(f), Canonical(g, op), rest)
  {
  }

  lemma ModifiedParsed(g: Grammar, f: string, token: string, s: string, op: string, rest: string)
    requires WellFormed(g) && ValidHead(g, f, Modified(token), op) && Line(token + (" " + s))
    requires NextOp(g.ops, token + (" " + s)) == Token(token, s) && NextOp(g.ops, s) == Token(op, rest)
    ensures Line(f + (" " + (token + (" " + s))))
    ensures Predicate(g, f + (" " + (token + (" " + s))))
            == if f in g.fields then Condition(OperandOf(g, f, Modified(token)), Canonical(g, op), rest)
               else Err(Unknown(g, f))
  {
    var text := f + (" " + (token + (" " + s)));
    FieldLexed(f, token + (" " + s));
    if f in g.fields {
      ModifiedField(g, f, token, text, token + (" " + s), s, op, rest);
    } else {
      UnknownField(g, f, text);
    }
  }

  lemma ModifiedField(g: Grammar, f: string, token: string, text: string, s: string, last: string, op: string,
                      rest: string)
    requires FieldName(f) && f in g.fields && NextWord(text) == Token(f, s)
    requires NextOp(g.ops, s) == Token(token, last) && token in g.canon && g.canon[token] in {"lower", "upper"}
    requires NextOp(g.ops, last) == Token(op, rest)
    ensures Predicate(g, text) == Condition(OperandOf(g, f, Modified(token)), Canonical(g, op), rest)
  {
  }

  lemma OpInPlace(g: Grammar, op: string, after: string)
    requires WellFormed(g) && op in g.ops && FollowsOp(g, op, after)
    ensures NextOp(g.ops, op + after) == Token(op, Rest(after)) && Line(op + after)
  {
    assert OpToken(op);
    assert Line(op);
    LineFollowed(op, after);
    OpLexed(g, op, after);
  }

  lemma ModifierInPlace(g: Grammar, token: string, s: string)
    requires WellFormed(g) && token in g.ops && Canonical(g, token) in {"lower", "upper"} && Line(s)
    ensures NextOp(g.ops, token + (" " + s)) == Token(token, s) && Line(token + (" " + s))
  {
    assert (" " + s)[1..] == s;
    FinalFollowed(g, token, " " + s);
    OpInPlace(g, token, " " + s);
  }

  lemma FieldLexed(f: string, s: string)
    requires Word(f) && Line(s)
    ensures NextWord(f + (" " + s)) == Token(f, s) && Line(f + (" " + s))
  {
    var r := " " + s;
    assert r[1..] == s;
    WordLexed(f, r);
    forall i | 0 <= i < |f| ensures !IsSpace(f[i]) { WordIsNotSpace(f[i]); }
    assert Line(f);
    LineFollowed(f, r);
  }
}
