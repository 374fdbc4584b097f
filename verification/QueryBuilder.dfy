/** The natural-language query parser, on a table of string fields. */
module QueryBuilder {
  import opened Options
  import opened Text

  datatype Operand = Plain(name: string) | Lowered(name: string) | Uppered(name: string)

  /** The query the parser builds; `All` is `table.id > 0`. */
  datatype Query =
    | All
    | Compare(operand: Operand, op: string, value: string)
    | IsNull(operand: Operand)
    | NotNull(operand: Operand)
    | Belongs(operand: Operand, values: seq<string>)
    | Not(query: Query)
    | And(left: Query, right: Query)
    | Or(left: Query, right: Query)

  datatype Error = ParseError | KeyError | LeftoverStack

  datatype Result<+T> = Ok(value: T) | Err(error: Error)

  /** `ops` is the alternation of `re_op` in the order it is tried; `canon` is `tokens_ops`. */
  datatype Grammar = Grammar(fields: set<string>, ops: seq<string>, canon: map<string, string>)

  /** `Query.__invert__` */
  function Invert(q: Query): Query {
    if q.Not? then q.query else Not(q)
  }

  // ----- Regular expressions, as (group 1, group 2)

  /** The rest of the line: `\s*(.*)$` on stripped text, where `.` matches no newline. */
  function RestOfLine(s: string): Option<string> {
    if '\n' in LStrip(s) then None else Some(LStrip(s))
  }

  /** `re_not`: `^(not)(\W.*)$` */
  function MatchNot(s: string): Option<(string, string)> {
    if "not" <= s && |s| > 3 && !IsWord(s[3]) && '\n' !in s[4..] then Some(("not", s[3..])) else None
  }

  /** `re_token`: `^(\w+)\s*(.*)$` */
  function MatchWord(s: string): Option<(string, string)> {
    var n := WordRun(s);
    if n == 0 then None
    else
      match RestOfLine(s[n..])
      case None => None
      case Some(rest) => Some((s[..n], rest))
  }

  /** One alternative of `re_op`: a space stands for `\s+`.  The length matched. */
  function MatchToken(token: string, s: string): (n: Option<nat>)
    ensures n.Some? ==> n.value <= |s| && (token != "" ==> n.value > 0)
    decreases |token|
  {
    if token == "" then Some(0)
    else if s == "" then None
    else if token[0] == ' ' then
      var k := SpaceRun(s);
      if k == 0 then None
      else
        match MatchToken(token[1..], s[k..])
        case None => None
        case Some(m) => Some(k + m)
    else if s[0] != token[0] then None
    else
      match MatchToken(token[1..], s[1..])
      case None => None
      case Some(m) => Some(1 + m)
  }

  /** Index of the first alternative that matches, |ops| when none does. */
  function FirstMatch(ops: seq<string>, s: string): (i: nat)
    ensures i <= |ops|
    ensures i < |ops| ==> MatchToken(ops[i], s).Some?
    ensures forall j | 0 <= j < i :: MatchToken(ops[j], s).None?
  {
    if ops == [] || MatchToken(ops[0], s).Some? then 0 else 1 + FirstMatch(ops[1..], s)
  }

  /** `re_op` */
  function MatchOp(ops: seq<string>, s: string): Option<(string, string)> {
    var i := FirstMatch(ops, s);
    if i == |ops| then None
    else
      var n := MatchToken(ops[i], s).value;
      match RestOfLine(s[n..])
      case None => None
      case Some(rest) => Some((s[..n], rest))
  }

  /** End of a double-quoted string opened before `i`: the first quote not after a backslash, or
      failing that the last quote; 0 when there is none. */
  function ClosingQuote(s: string, i: nat, last: nat): (q: nat)
    requires 1 <= i <= |s| && last < i
    requires last > 0 ==> s[last] == '"'
    ensures q < |s| && (q > 0 ==> s[q] == '"')
    decreases |s| - i
  {
    if i == |s| then last
    else if s[i] != '"' then ClosingQuote(s, i + 1, last)
    else if s[i - 1] == '\\' then ClosingQuote(s, i + 1, i)
    else i
  }

  /** `re_value` */
  function MatchValue(s: string): Option<(string, string)> {
    var n := if s == "" then 0
             else if s[0] == '"' then
               var q := ClosingQuote(s, 1, 0);
               if q == 0 then 0 else q + 1
             else BareRun(s);
    match RestOfLine(s[n..])
    case None => None
    case Some(rest) => Some((s[..n], rest))
  }

  // ----- One token

  datatype Lexed = Token(token: string, rest: string) | Nothing(rest: string)

  /** The end of `next`: unquote or collapse the token, strip the rest. */
  function Lex(s: string, m: Option<(string, string)>): (r: Lexed)
    requires Trimmed(s)
    ensures m.None? ==> r == Nothing(s)
  {
    match m
    case None => Nothing(s)
    case Some((token, rest)) =>
      if s[0] == '"'
      then Token(if |token| < 2 then "" else token[1..|token| - 1], Strip(rest))
      else Token(Collapse(token), Strip(rest))
  }

  function NextNot(text: string): Lexed {
    var s := Strip(text);
    if s == "" then Nothing(s) else Lex(s, MatchNot(s))
  }

  function NextWord(text: string): (r: Lexed)
    ensures r.Token? ==> |r.rest| < |text|
    ensures |r.rest| <= |text|
  {
    var s := Strip(text);
    if s == "" then Nothing(s) else Lex(s, MatchWord(s))
  }

  function NextOp(ops: seq<string>, text: string): (r: Lexed)
    ensures |r.rest| <= |text|
  {
    var s := Strip(text);
    if s == "" then Nothing(s) else Lex(s, MatchOp(ops, s))
  }

  function NextValue(text: string): (r: Lexed)
    ensures |r.rest| <= |text|
  {
    var s := Strip(text);
    if s == "" then Nothing(s) else Lex(s, MatchValue(s))
  }

  // ----- Brackets

  /** The scanner between two characters. */
  datatype Scan = Scan(level: int, quoted: bool, prev: Option<char>)

  function Advance(st: Scan, c: char): Scan {
    if !st.quoted then
      if c == '"' then Scan(st.level, true, Some(c))
      else if c == '(' then Scan(st.level + 1, false, Some(c))
      else if c == ')' then Scan(st.level - 1, false, Some(c))
      else Scan(st.level, false, Some(c))
    else Scan(st.level, !(c == '"' && st.prev != Some('\\')), Some(c))
  }

  function FindClosing(s: string, i: nat, st: Scan): (r: Option<nat>)
    requires i <= |s|
    ensures r.Some? ==> i <= r.value < |s|
    ensures r.Some? && st.level != 1 ==> i < r.value
    decreases |s| - i
  {
    if i == |s| then None
    else if !st.quoted && s[i] == ')' && st.level == 1 then Some(i)
    else FindClosing(s, i + 1, Advance(st, s[i]))
  }

  const START: Scan := Scan(0, false, None)

  // ----- The parser

  const COMPARISONS := {"==", "!=", "<", ">", "<=", ">=", "contains", "startswith"}

  /** The comma-separated values after the first one of `belongs`. */
  function MoreValues(text: string, values: seq<string>): (r: Result<(seq<string>, string)>)
    ensures r.Ok? ==> |r.value.1| <= |text|
    ensures r.Err? ==> r.error == ParseError
    decreases |text|
  {
    if text == "" || text[0] != ',' then Ok((values, text))
    else
      match NextValue(text[1..])
      case Nothing(_) => Err(ParseError)
      case Token(v, rest) => MoreValues(rest, values + [v])
  }

  /** Operator and value, once the operand and its possible modifier are known. */
  function Condition(x: Operand, op: string, text: string): (r: Result<(Query, string)>)
    ensures r.Ok? ==> |r.value.1| <= |text|
    ensures r.Err? ==> r.error == ParseError
  {
    if op == "is null" then Ok((IsNull(x), text))
    else if op == "is not null" then Ok((NotNull(x), text))
    else
      match NextValue(text)
      case Nothing(_) => Err(ParseError)
      case Token(v, rest) =>
        if op in COMPARISONS then Ok((Compare(x, op, v), rest))
        else if op == "belongs" then
          match MoreValues(rest, [v])
          case Err(e) => Err(e)
          case Ok((vs, last)) => Ok((Belongs(x, vs), last))
        else Err(ParseError)
  }

  function Canonical(g: Grammar, token: string): string {
    if token in g.canon then g.canon[token] else ""
  }

  function AsciiLower(s: string): string {
    seq(|s|, i requires 0 <= i < |s| => if 'A' <= s[i] <= 'Z' then s[i] - 'A' + 'a' else s[i])
  }

  /** A bare predicate: field, possible modifier, operator, value. */
  function Predicate(g: Grammar, text: string): (r: Result<(Query, string)>)
    ensures r.Ok? ==> |r.value.1| < |text|
  {
    match NextWord(text)
    case Nothing(_) => Err(ParseError)
    case Token(name, afterName) =>
      if AsciiLower(name) !in g.fields then Err(ParseError)
      else if name !in g.fields then Err(KeyError)
      else
        match NextOp(g.ops, afterName)
        case Nothing(_) => Err(ParseError)
        case Token(first, afterFirst) =>
          if first !in g.canon then Err(KeyError)
          else if g.canon[first] == "lower" || g.canon[first] == "upper" then
            var x := if g.canon[first] == "lower" then Lowered(name) else Uppered(name);
            match NextOp(g.ops, afterFirst)
            case Nothing(_) => Err(ParseError)
            case Token(second, afterSecond) => Condition(x, Canonical(g, second), afterSecond)
          else Condition(Plain(name), g.canon[first], afterFirst)
  }

  /** Queries and pending operators, as the parser stacks them. */
  datatype Item = Operandum(query: Query) | Connective(name: string)

  /** A pending operator takes the query below it and the new one. */
  function Push(stack: seq<Item>, q: Query): seq<Item> {
    var n := |stack|;
    if n > 1 && stack[n - 1] == Connective("and") && stack[n - 2].Operandum? then
      stack[..n - 2] + [Operandum(And(stack[n - 2].query, q))]
    else if n > 1 && stack[n - 1] == Connective("or") && stack[n - 2].Operandum? then
      stack[..n - 2] + [Operandum(Or(stack[n - 2].query, q))]
    else stack + [Operandum(q)]
  }

  function Finish(stack: seq<Item>): Result<Query> {
    if |stack| > 1 then Err(LeftoverStack)
    else if stack == [] then Ok(All)
    else if stack[0].Operandum? then Ok(stack[0].query)
    else Err(LeftoverStack)
  }

  /** A group in brackets or a bare predicate. */
  function Group(g: Grammar, s: string): (r: Result<(Query, string)>)
    ensures r.Ok? ==> |r.value.1| < |s|
    decreases |s|, 0
  {
    if s != "" && s[0] == '(' then
      match FindClosing(s, 0, START)
      case None => Err(ParseError)
      case Some(i) =>
        match Parse(g, s[1..i])
        case Err(e) => Err(e)
        case Ok(q) => Ok((q, Strip(s[i + 1..])))
    else Predicate(g, s)
  }

  /** An optional `not`, then a group. */
  function Atom(g: Grammar, text: string): (r: Result<(Query, string)>)
    ensures r.Ok? ==> |r.value.1| < |text|
    decreases |text|, 1
  {
    var negation := NextNot(text);
    assert |negation.rest| <= |text|;
    match Group(g, negation.rest)
    case Err(e) => Err(e)
    case Ok((q, rest)) => Ok((if negation.Token? then Invert(q) else q, rest))
  }

  /** After an atom: stop, or a connective and more text. */
  function Continue(g: Grammar, stack: seq<Item>, text: string): Result<Query>
    decreases |text|, 3
  {
    match NextWord(text)
    case Nothing(_) => Finish(stack)
    case Token(word, rest) =>
      if (word == "and" || word == "or") && rest != ""
      then ParseLoop(g, rest, stack + [Connective(word)])
      else Err(ParseError)
  }

  function ParseLoop(g: Grammar, text: string, stack: seq<Item>): Result<Query>
    decreases |text|, 2
  {
    if Strip(text) == "" then Finish(stack)
    else
      match Atom(g, text)
      case Err(e) => Err(e)
      case Ok((q, rest)) => Continue(g, Push(stack, q), rest)
  }

  function Parse(g: Grammar, text: string): Result<Query>
    decreases |text|, 3
  {
    ParseLoop(g, text, [])
  }

  // ----- The loops of the source

  method FindClosingBracket(text: string) returns (r: Result<nat>)
    ensures r == if text == "" || text[0] != '(' then Err(ParseError)
                 else match FindClosing(text, 0, START) case None => Err(ParseError) case Some(i) => Ok(i)
  {
    if text == "" || text[0] != '(' {
      return Err(ParseError);
    }
    var level, quoted, prev := 0, false, None;
    for i := 0 to |text|
      invariant FindClosing(text, 0, START) == FindClosing(text, i, Scan(level, quoted, prev))
    {
      var c := text[i];
      if !quoted {
        if c == '"' {
          quoted := true;
        } else if c == '(' {
          level := level + 1;
        } else if c == ')' {
          level := level - 1;
          if level == 0 {
            return Ok(i);
          }
        }
      } else if c == '"' {
        if prev != Some('\\') {
          quoted := false;
        }
      }
      prev := Some(c);
    }
    return Err(ParseError);
  }

  method ParseGroup(g: Grammar, s: string) returns (r: Result<(Query, string)>)
    ensures r == Group(g, s)
    decreases |s|, 0
  {
    if s != "" && s[0] == '(' {
      var closing := FindClosingBracket(s);
      if closing.Err? {
        return Err(closing.error);
      }
      var inner := ParseQuery(g, s[1..closing.value]);
      if inner.Err? {
        return Err(inner.error);
      }
      r := Ok((inner.value, Strip(s[closing.value + 1..])));
    } else {
      r := Predicate(g, s);
    }
  }

  method ParseQuery(g: Grammar, input: string) returns (r: Result<Query>)
    ensures r == Parse(g, input)
    decreases |input|, 1
  {
    var text, stack := input, [];
    while Strip(text) != ""
      invariant |text| <= |input|
      invariant ParseLoop(g, text, stack) == Parse(g, input)
      decreases |text|
    {
      var negation := NextNot(text);
      assert |negation.rest| <= |text|;
      var group := ParseGroup(g, negation.rest);
      if group.Err? {
        return Err(group.error);
      }
      var (query, rest) := group.value;
      if negation.Token? {
        query := Invert(query);
      }
      assert Atom(g, text) == Ok((query, rest));
      stack := Push(stack, query);
      match NextWord(rest) {
        case Nothing(_) => return Finish(stack);
        case Token(word, more) =>
          if (word == "and" || word == "or") && more != "" {
            stack := stack + [Connective(word)];
            text := more;
          } else {
            return Err(ParseError);
          }
      }
    }
    return Finish(stack);
  }
}
