/** The fully parenthesised SQL that the dialect renders, and a reader that recovers the tree. */
module SqlText {
  import opened Options
  import opened SqlLiterals

  datatype Infix = AND | OR | EQ | NE | LT | LTE | GT | GTE | ADD | SUB | MUL | DIV | MOD | CONCAT

  datatype Expr =
    | Column(table: string, name: string)
    | Int(n: int)
    | Str(s: string)
    | Not(e: Expr)
    | Binary(op: Infix, left: Expr, right: Expr)
    | NullTest(e: Expr, isNull: bool)
    | Belongs(e: Expr, items: seq<Expr>)
    | Case(e: Expr, upper: bool)  // UPPER(e) or LOWER(e)

  function OpText(op: Infix): string {
    match op
    case AND => " AND "
    case OR => " OR "
    case EQ => " = "
    case NE => " <> "
    case LT => " < "
    case LTE => " <= "
    case GT => " > "
    case GTE => " >= "
    case ADD => " + "
    case SUB => " - "
    case MUL => " * "
    case DIV => " / "
    case MOD => " % "
    case CONCAT => " || "
  }

  function Signed(n: int): string { if n < 0 then "-" + Decimal(-n) else Decimal(n) }

  function QuotedName(s: string): string { "\"" + s + "\"" }

  function Render(e: Expr): string
    decreases e, 0
  {
    match e
    case Column(t, n) => QuotedName(t) + "." + QuotedName(n)
    case Int(n) => Signed(n)
    case Str(s) => Adapt(s)
    case Not(x) => "(NOT " + Render(x) + ")"
    case Binary(op, a, b) => "(" + Render(a) + OpText(op) + Render(b) + ")"
    case NullTest(x, isNull) => "(" + Render(x) + (if isNull then " IS NULL)" else " IS NOT NULL)")
    case Belongs(x, items) =>
      if items == [] then "(1=0)"
      else "(" + Render(x) + " IN (" + RenderItems(items) + "))"
    case Case(x, upper) => (if upper then "UPPER(" else "LOWER(") + Render(x) + ")"
  }

  /** The items of an IN list, comma-separated. */
  function RenderItems(items: seq<Expr>): string
    requires items != []
    decreases items, 1
  {
    if |items| == 1 then Render(items[0]) else Render(items[0]) + "," + RenderItems(items[1..])
  }

  // ----- The reader

  /** The text behind `token`, if it begins with it. */
  function After(token: string, text: string): (r: Option<string>)
    ensures r.Some? ==> token <= text && r.value == text[|token|..]
  {
    if token <= text then Some(text[|token|..]) else None
  }

  /** A name up to the next double quote. */
  function ReadName(text: string): (r: Option<(string, string)>)
    ensures r.Some? ==> |r.value.1| < |text|
  {
    if text == "" then None
    else if text[0] == '"' then Some(("", text[1..]))
    else
      match ReadName(text[1..])
      case None => None
      case Some((name, rest)) => Some(([text[0]] + name, rest))
  }

  /** `"table"."name"` after its first quote. */
  function ReadColumn(text: string): (r: Option<(Expr, string)>)
    ensures r.Some? ==> |r.value.1| < |text|
  {
    match ReadName(text)
    case None => None
    case Some((t, rest)) =>
      match After(".\"", rest)
      case None => None
      case Some(tail) =>
        match ReadName(tail)
        case None => None
        case Some((n, last)) => Some((Column(t, n), last))
  }

  /** The infix operators of SQL. */
  const INFIXES: seq<(string, Infix)> := [
    (" AND ", AND), (" OR ", OR),
    (" = ", EQ), (" <> ", NE), (" < ", LT), (" <= ", LTE), (" > ", GT), (" >= ", GTE),
    (" + ", ADD), (" - ", SUB), (" * ", MUL), (" / ", DIV), (" % ", MOD), (" || ", CONCAT)]

  /** The first of the operators that the text begins with. */
  function ReadInfix(ops: seq<(string, Infix)>, text: string): (r: Option<(Infix, string)>)
    ensures r.Some? ==> |r.value.1| <= |text|
  {
    if ops == [] then None
    else if ops[0].0 <= text then Some((ops[0].1, text[|ops[0].0|..]))
    else ReadInfix(ops[1..], text)
  }

  lemma QuotedShrinks(text: string)
    ensures ReadQuoted(text).Some? ==> |ReadQuoted(text).value.1| < |text|
    decreases |text|
  {
    if text != "" {
      if text[0] != '\'' {
        QuotedShrinks(text[1..]);
      } else if |text| > 1 && text[1] == '\'' {
        QuotedShrinks(text[2..]);
      }
    }
  }

  function ReadAtom(text: string): (r: Option<(Expr, string)>)
    ensures r.Some? ==> |r.value.1| < |text|
  {
    if text == "" then None
    else if text[0] == '"' then ReadColumn(text[1..])
    else if text[0] == '\'' then
      QuotedShrinks(text[1..]);
      match ReadLiteral(text)
      case None => None
      case Some((s, rest)) => Some((Str(s), rest))
    else if text[0] == '-' then
      match ReadNat(text[1..])
      case None => None
      case Some((n, rest)) => Some((Int(0 - n as int), rest))
    else
      match ReadNat(text)
      case None => None
      case Some((n, rest)) => Some((Int(n), rest))
  }

  function Read(text: string): (r: Option<(Expr, string)>)
    ensures r.Some? ==> |r.value.1| < |text|
    decreases |text|, 0
  {
    if "(NOT " <= text then
      match Read(text[5..])
      case None => None
      case Some((x, rest)) =>
        match After(")", rest)
        case None => None
        case Some(last) => Some((Not(x), last))
    else if "UPPER(" <= text || "LOWER(" <= text then
      match Read(text[6..])
      case None => None
      case Some((x, rest)) =>
        match After(")", rest)
        case None => None
        case Some(last) => Some((Case(x, text[0] == 'U'), last))
    else if "(1=0)" <= text then Some((NEVER, text[5..]))
    else if "(" <= text then
      match Read(text[1..])
      case None => None
      case Some((x, rest)) => ReadRest(x, rest)
    else ReadAtom(text)
  }

  /** What comes after the first operand of a bracket. */
  function ReadRest(x: Expr, text: string): (r: Option<(Expr, string)>)
    ensures r.Some? ==> |r.value.1| < |text|
    decreases |text|, 1
  {
    if " IS NULL)" <= text then Some((NullTest(x, true), text[9..]))
    else if " IS NOT NULL)" <= text then Some((NullTest(x, false), text[13..]))
    else if " IN (" <= text then
      match ReadItems(text[5..])
      case None => None
      case Some((items, rest)) =>
        match After("))", rest)
        case None => None
        case Some(last) => Some((Belongs(x, items), last))
    else
      match ReadInfix(INFIXES, text)
      case None => None
      case Some((op, rest)) =>
        match Read(rest)
        case None => None
        case Some((y, tail)) =>
          match After(")", tail)
          case None => None
          case Some(last) => Some((Binary(op, x, y), last))
  }

  function ReadItems(text: string): (r: Option<(seq<Expr>, string)>)
    ensures r.Some? ==> |r.value.1| < |text|
    decreases |text|, 1
  {
    match Read(text)
    case None => None
    case Some((x, rest)) =>
      if "," <= rest then
        match ReadItems(rest[1..])
        case None => None
        case Some((xs, last)) => Some(([x] + xs, last))
      else Some(([x], rest))
  }

  // ----- Reading back

  /** An empty `belongs`, the operand of which is not rendered. */
  const NEVER: Expr := Belongs(Int(0), [])

  /** The tree with the operands of empty `belongs` tests forgotten. */
  function Normal(e: Expr): Expr
    decreases e, 0
  {
    match e
    case Column(_, _) => e
    case Int(_) => e
    case Str(_) => e
    case Not(x) => Not(Normal(x))
    case Binary(op, a, b) => Binary(op, Normal(a), Normal(b))
    case NullTest(x, isNull) => NullTest(Normal(x), isNull)
    case Belongs(x, items) => if items == [] then NEVER else Belongs(Normal(x), NormalItems(items))
    case Case(x, upper) => Case(Normal(x), upper)
  }

  function NormalItems(items: seq<Expr>): (r: seq<Expr>)
    ensures |r| == |items|
    decreases items, 1
  {
    if items == [] then [] else [Normal(items[0])] + NormalItems(items[1..])
  }

  ghost predicate PlainName(s: string) { '"' !in s }

  /** No name holds a double quote. */
  ghost predicate PlainNames(e: Expr) {
    match e
    case Column(t, n) => PlainName(t) && PlainName(n)
    case Int(_) => true
    case Str(_) => true
    case Not(x) => PlainNames(x)
    case Binary(_, a, b) => PlainNames(a) && PlainNames(b)
    case NullTest(x, _) => PlainNames(x)
    case Belongs(x, items) => PlainNames(x) && forall i | 0 <= i < |items| :: PlainNames(items[i])
    case Case(x, _) => PlainNames(x)
  }

  /** Text that cannot be taken for more of a number or a literal. */
  predicate Stops(rest: string) { rest == "" || (!IsDigit(rest[0]) && rest[0] != '\'') }

  /** Text behind a tree that cannot be taken for more of it: only a number or a literal at the end can go on. */
  predicate Delimited(e: Expr, rest: string) {
    match e
    case Int(_) => rest == "" || !IsDigit(rest[0])
    case Str(_) => rest == "" || rest[0] != '\''
    case _ => true
  }

  lemma {:induction false} NameReadsBack(s: string, rest: string)
    requires PlainName(s)
    ensures ReadName(s + "\"" + rest) == Some((s, rest))
    decreases |s|
  {
    var text := s + "\"" + rest;
    if s == "" {
      assert text == "\"" + rest && text[1..] == rest;
    } else {
      NameReadsBack(s[1..], rest);
      assert s == [s[0]] + s[1..] && text[1..] == s[1..] + "\"" + rest;
    }
  }

  lemma AtomDispatch(text: string)
    requires text != "" && text[0] != '(' && text[0] != 'U' && text[0] != 'L'
    ensures Read(text) == ReadAtom(text)
  {
  }

  lemma ColumnText(t: string, n: string, rest: string)
    ensures Render(Column(t, n)) + rest == "\"" + (t + "\"" + (".\"" + (n + "\"" + rest)))
  {
  }

  lemma ColumnReadsBack(t: string, n: string, rest: string)
    requires PlainName(t) && PlainName(n)
    ensures Read(Render(Column(t, n)) + rest) == Some((Column(t, n), rest))
  {
    var second := n + "\"" + rest;
    var text := "\"" + (t + "\"" + (".\"" + second));
    ColumnText(t, n, rest);
    assert text[0] == '"' && text[1..] == t + "\"" + (".\"" + second);
    NameReadsBack(t, ".\"" + second);
    assert (".\"" + second)[2..] == second;
    NameReadsBack(n, rest);
    AtomDispatch(text);
  }

  lemma DecimalStarts(n: nat)
    ensures IsDigit(Decimal(n)[0])
  {
  }

  lemma DigitDispatch(text: string, n: nat, rest: string)
    requires text != "" && IsDigit(text[0])
    ensures Read(text) == Some((Int(n), rest)) <==> ReadNat(text) == Some((n, rest))
  {
    AtomDispatch(text);
  }

  lemma NatAtom(n: nat, rest: string)
    ensures Read(Decimal(n) + rest) == Some((Int(n), rest)) <==> rest == "" || !IsDigit(rest[0])
  {
    NatReadsBack(n, rest);
    DecimalStarts(n);
    assert (Decimal(n) + rest)[0] == Decimal(n)[0];
    DigitDispatch(Decimal(n) + rest, n, rest);
  }

  lemma MinusDispatch(text: string, digits: string, n: nat, rest: string)
    requires text == "-" + digits
    ensures Read(text) == Some((Int(0 - n as int), rest)) <==> ReadNat(digits) == Some((n, rest))
  {
    assert text[0] == '-' && text[1..] == digits;
    AtomDispatch(text);
  }

  lemma MinusText(digits: string, rest: string)
    ensures "-" + digits + rest == "-" + (digits + rest)
  {
  }

  lemma NegativeAtom(n: nat, rest: string)
    ensures Read("-" + Decimal(n) + rest) == Some((Int(0 - n as int), rest)) <==> rest == "" || !IsDigit(rest[0])
  {
    NatReadsBack(n, rest);
    MinusText(Decimal(n), rest);
    MinusDispatch("-" + Decimal(n) + rest, Decimal(n) + rest, n, rest);
  }

  lemma IntReadsBack(n: int, rest: string)
    ensures Read(Signed(n) + rest) == Some((Int(n), rest)) <==> rest == "" || !IsDigit(rest[0])
  {
    if n < 0 {
      var m: nat := -n;
      assert Signed(n) == "-" + Decimal(m) && 0 - m as int == n;
      NegativeAtom(m, rest);
    } else {
      NatAtom(n, rest);
    }
  }

  lemma StrReadsBack(s: string, rest: string)
    ensures Read(Adapt(s) + rest) == Some((Str(s), rest)) <==> rest == "" || rest[0] != '\''
  {
    LiteralReadsBack(s, rest);
    assert (Adapt(s) + rest)[0] == '\'';
    AtomDispatch(Adapt(s) + rest);
  }

  /** Texts that differ from a token in one place do not begin with it. */
  lemma PrefixAt(token: string, text: string, i: nat)
    ensures token <= text && i < |token| ==> text[i] == token[i]
  {
  }

  /** No operator's text begins another's. */
  lemma InfixesApart(op: Infix, other: Infix, rest: string)
    requires op != other
    ensures !(OpText(other) <= OpText(op) + rest)
  {
    var text := OpText(op) + rest;
    assert text[1] == OpText(op)[1] && text[2] == OpText(op)[2];
    PrefixAt(OpText(other), text, 1);
    PrefixAt(OpText(other), text, 2);
  }

  lemma InfixIsNoTest(op: Infix, rest: string)
    ensures !(" IS NULL)" <= OpText(op) + rest) && !(" IS NOT NULL)" <= OpText(op) + rest)
            && !(" IN (" <= OpText(op) + rest)
  {
    var text := OpText(op) + rest;
    assert text[1] == OpText(op)[1];
    PrefixAt(" IS NULL)", text, 1);
    PrefixAt(" IS NOT NULL)", text, 1);
    PrefixAt(" IN (", text, 1);
  }

  ghost predicate Spelled(ops: seq<(string, Infix)>) {
    forall i | 0 <= i < |ops| :: ops[i].0 == OpText(ops[i].1)
  }

  lemma {:induction false} InfixFound(ops: seq<(string, Infix)>, op: Infix, rest: string)
    requires Spelled(ops) && (OpText(op), op) in ops
    ensures ReadInfix(ops, OpText(op) + rest) == Some((op, rest))
    decreases |ops|
  {
    if ops[0].1 == op {
      assert (OpText(op) + rest)[|OpText(op)|..] == rest;
    } else {
      InfixesApart(op, ops[0].1, rest);
      InfixFound(ops[1..], op, rest);
    }
  }

  lemma InfixReadsBack(op: Infix, rest: string)
    ensures ReadInfix(INFIXES, OpText(op) + rest) == Some((op, rest))
  {
    InfixListed(op);
    InfixFound(INFIXES, op, rest);
  }

  lemma InfixListed(op: Infix)
    ensures Spelled(INFIXES) && (OpText(op), op) in INFIXES
  {
    match op
    case AND => assert INFIXES[0] == (OpText(op), op);
    case OR => assert INFIXES[1] == (OpText(op), op);
    case EQ => assert INFIXES[2] == (OpText(op), op);
    case NE => assert INFIXES[3] == (OpText(op), op);
    case LT => assert INFIXES[4] == (OpText(op), op);
    case LTE => assert INFIXES[5] == (OpText(op), op);
    case GT => assert INFIXES[6] == (OpText(op), op);
    case GTE => assert INFIXES[7] == (OpText(op), op);
    case ADD => assert INFIXES[8] == (OpText(op), op);
    case SUB => assert INFIXES[9] == (OpText(op), op);
    case MUL => assert INFIXES[10] == (OpText(op), op);
    case DIV => assert INFIXES[11] == (OpText(op), op);
    case MOD => assert INFIXES[12] == (OpText(op), op);
    case CONCAT => assert INFIXES[13] == (OpText(op), op);
  }

  /** No operand makes its bracket begin like a negation or like an empty `belongs`. */
  lemma RenderStarts(e: Expr, tail: string)
    requires tail != "" && tail[0] == ' '
    ensures Render(e) != "" && Render(e)[0] != 'N'
    ensures !("1=" <= Render(e) + tail)
  {
    match e
    case Int(n) =>
      var d := Decimal(if n < 0 then -n else n);
      DecimalStarts(if n < 0 then -n else n);
      assert (Render(e) + tail)[0] == Render(e)[0];
      if n >= 0 {
        assert (Render(e) + tail)[1] == if |d| > 1 then d[1] else ' ';
        PrefixAt("1=", Render(e) + tail, 1);
      }
    case _ =>
      assert (Render(e) + tail)[0] == Render(e)[0];
  }

  lemma BracketIsPlain(inner: string)
    requires inner != "" && inner[0] != 'N' && !("1=" <= inner)
    ensures !("(NOT " <= "(" + inner) && !("(1=0)" <= "(" + inner)
  {
    var text := "(" + inner;
    assert text[1] == inner[0] && (|inner| > 1 ==> text[2] == inner[1]);
    PrefixAt("(NOT ", text, 1);
    PrefixAt("(1=0)", text, 1);
    PrefixAt("(1=0)", text, 2);
  }

  lemma BracketDispatch(inner: string, y: Expr, tail: string)
    requires !("(NOT " <= "(" + inner) && !("(1=0)" <= "(" + inner)
    requires Read(inner) == Some((y, tail))
    ensures Read("(" + inner) == ReadRest(y, tail)
  {
    var text := "(" + inner;
    assert text[1..] == inner && text[0] == '(';
    PrefixAt("UPPER(", text, 0);
    PrefixAt("LOWER(", text, 0);
  }

  lemma BracketReads(e: Expr, y: Expr, tail: string)
    requires tail != "" && tail[0] == ' ' && Read(Render(e) + tail) == Some((y, tail))
    ensures Read("(" + Render(e) + tail) == ReadRest(y, tail)
  {
    var inner := Render(e) + tail;
    RenderStarts(e, tail);
    assert inner[0] == Render(e)[0];
    BracketIsPlain(inner);
    BracketDispatch(inner, y, tail);
    assert "(" + Render(e) + tail == "(" + inner;
  }

  lemma NeverReadsBack(rest: string)
    ensures Read("(1=0)" + rest) == Some((NEVER, rest))
  {
    var text := "(1=0)" + rest;
    assert text[5..] == rest;
    PrefixAt("(NOT ", text, 1);
  }

  lemma Associate(a: string, s: string, b: string, rest: string)
    ensures a + s + b + rest == a + (s + (b + rest))
    ensures a + s + b + rest == a + s + (b + rest)
  {
  }

  lemma ClosedBy(word: string, s: string, rest: string, y: Expr)
    requires Read(s + (")" + rest)) == Some((y, ")" + rest))
    ensures (word + (s + (")" + rest)))[|word|..] == s + (")" + rest)
    ensures After(")", ")" + rest) == Some(rest)
  {
    assert (")" + rest)[1..] == rest;
  }

  lemma NotReadsBack(x: Expr, y: Expr, rest: string)
    requires Read(Render(x) + (")" + rest)) == Some((y, ")" + rest))
    ensures Read(Render(Not(x)) + rest) == Some((Not(y), rest))
  {
    Associate("(NOT ", Render(x), ")", rest);
    ClosedBy("(NOT ", Render(x), rest, y);
  }

  lemma CaseReads(text: string, upper: bool, y: Expr, rest: string)
    requires (if upper then "UPPER(" else "LOWER(") <= text && Read(text[6..]) == Some((y, ")" + rest))
    ensures Read(text) == Some((Case(y, upper), rest))
  {
    assert text[0] == if upper then 'U' else 'L';
    PrefixAt("(NOT ", text, 0);
    assert (")" + rest)[1..] == rest;
  }

  lemma CaseText(x: Expr, upper: bool, rest: string)
    ensures Render(Case(x, upper)) + rest == (if upper then "UPPER(" else "LOWER(") + (Render(x) + (")" + rest))
  {
    Associate(if upper then "UPPER(" else "LOWER(", Render(x), ")", rest);
  }

  lemma CaseReadsBack(x: Expr, y: Expr, upper: bool, rest: string)
    requires Read(Render(x) + (")" + rest)) == Some((y, ")" + rest))
    ensures Read(Render(Case(x, upper)) + rest) == Some((Case(y, upper), rest))
  {
    var text := Render(Case(x, upper)) + rest;
    assert text[6..] == Render(x) + (")" + rest) && (if upper then "UPPER(" else "LOWER(") <= text by {
      CaseText(x, upper, rest);
      ClosedBy(if upper then "UPPER(" else "LOWER(", Render(x), rest, y);
    }
    CaseReads(text, upper, y, rest);
  }

  lemma NullTestRest(y: Expr, isNull: bool, rest: string)
    ensures ReadRest(y, (if isNull then " IS NULL)" else " IS NOT NULL)") + rest) == Some((NullTest(y, isNull), rest))
  {
    var word := if isNull then " IS NULL)" else " IS NOT NULL)";
    assert (word + rest)[|word|..] == rest;
    if !isNull {
      assert (word + rest)[5] == 'O';
      PrefixAt(" IS NULL)", word + rest, 5);
    }
  }

  lemma NullTestText(x: Expr, isNull: bool, rest: string)
    ensures Render(NullTest(x, isNull)) + rest
            == "(" + Render(x) + ((if isNull then " IS NULL)" else " IS NOT NULL)") + rest)
  {
    Associate("(", Render(x), if isNull then " IS NULL)" else " IS NOT NULL)", rest);
  }

  lemma NullTestReadsBack(x: Expr, y: Expr, isNull: bool, tail: string, rest: string)
    requires tail == (if isNull then " IS NULL)" else " IS NOT NULL)") + rest
             && Read(Render(x) + tail) == Some((y, tail))
    ensures Read(Render(NullTest(x, isNull)) + rest) == Some((NullTest(y, isNull), rest))
  {
    assert tail[0] == ' ';
    BracketReads(x, y, tail);
    NullTestRest(y, isNull, rest);
    NullTestText(x, isNull, rest);
  }

  lemma InfixRest(x: Expr, op: Infix, second: string, y: Expr, last: string)
    requires Read(second) == Some((y, ")" + last))
    ensures ReadRest(x, OpText(op) + second) == Some((Binary(op, x, y), last))
  {
    InfixReadsBack(op, second);
    InfixIsNoTest(op, second);
    assert (")" + last)[1..] == last;
  }

  lemma BinaryText(op: Infix, a: Expr, b: Expr, rest: string)
    ensures Render(Binary(op, a, b)) + rest == "(" + Render(a) + (OpText(op) + (Render(b) + (")" + rest)))
  {
  }

  lemma BinaryReadsBack(op: Infix, a: Expr, b: Expr, x: Expr, y: Expr, rest: string)
    requires var tail := OpText(op) + (Render(b) + (")" + rest)); Read(Render(a) + tail) == Some((x, tail))
    requires Read(Render(b) + (")" + rest)) == Some((y, ")" + rest))
    ensures Read(Render(Binary(op, a, b)) + rest) == Some((Binary(op, x, y), rest))
  {
    InfixBracket(a, x, op, Render(b) + (")" + rest), y, rest);
    BinaryText(op, a, b, rest);
  }

  lemma InfixBracket(a: Expr, x: Expr, op: Infix, second: string, y: Expr, rest: string)
    requires Read(Render(a) + (OpText(op) + second)) == Some((x, OpText(op) + second))
    requires Read(second) == Some((y, ")" + rest))
    ensures Read("(" + Render(a) + (OpText(op) + second)) == Some((Binary(op, x, y), rest))
  {
    OpTextStarts(op, second);
    BracketReads(a, x, OpText(op) + second);
    InfixRest(x, op, second, y, rest);
  }

  lemma OpTextStarts(op: Infix, second: string)
    ensures OpText(op) + second != "" && (OpText(op) + second)[0] == ' '
  {
  }

  lemma ListRest(x: Expr, list: string, items: seq<Expr>, last: string)
    requires ReadItems(list) == Some((items, "))" + last))
    ensures ReadRest(x, " IN (" + list) == Some((Belongs(x, items), last))
  {
    var tail := " IN (" + list;
    assert tail[5..] == list && ("))" + last)[2..] == last;
    assert tail[2] == 'N';
    PrefixAt(" IS NULL)", tail, 2);
    PrefixAt(" IS NOT NULL)", tail, 2);
  }

  lemma BelongsText(x: Expr, items: seq<Expr>, rest: string)
    requires items != []
    ensures Render(Belongs(x, items)) + rest == "(" + Render(x) + (" IN (" + (RenderItems(items) + ("))" + rest)))
  {
  }

  lemma BelongsReadsBack(x: Expr, items: seq<Expr>, y: Expr, ys: seq<Expr>, rest: string)
    requires items != []
    requires var tail := " IN (" + (RenderItems(items) + ("))" + rest)); Read(Render(x) + tail) == Some((y, tail))
    requires ReadItems(RenderItems(items) + ("))" + rest)) == Some((ys, "))" + rest))
    ensures Read(Render(Belongs(x, items)) + rest) == Some((Belongs(y, ys), rest))
  {
    var list := RenderItems(items) + ("))" + rest);
    BracketReads(x, y, " IN (" + list);
    ListRest(y, list, ys, rest);
    BelongsText(x, items, rest);
  }

  lemma OneItemReads(x: Expr, y: Expr, rest: string)
    requires Read(Render(x) + rest) == Some((y, rest)) && (rest == "" || rest[0] != ',')
    ensures ReadItems(RenderItems([x]) + rest) == Some(([y], rest))
  {
    PrefixAt(",", rest, 0);
  }

  lemma MoreItemsRead(x: Expr, more: seq<Expr>, y: Expr, ys: seq<Expr>, rest: string)
    requires more != [] && Read(Render(x) + ("," + (RenderItems(more) + rest)))
             == Some((y, "," + (RenderItems(more) + rest)))
    requires ReadItems(RenderItems(more) + rest) == Some((ys, rest))
    ensures ReadItems(RenderItems([x] + more) + rest) == Some(([y] + ys, rest))
  {
    assert ([x] + more)[1..] == more;
    CommaText(Render(x), RenderItems(more), rest);
  }

  lemma CommaText(a: string, b: string, rest: string)
    ensures a + "," + b + rest == a + ("," + (b + rest))
    ensures ("," + (b + rest))[1..] == b + rest
  {
  }

  lemma {:induction false} DelimitedReadsBack(e: Expr, rest: string)
    requires PlainNames(e) && Delimited(e, rest)
    ensures Read(Render(e) + rest) == Some((Normal(e), rest))
    decreases e, 0
  {
    match e
    case Column(t, n) => ColumnReadsBack(t, n, rest);
    case Int(n) => IntReadsBack(n, rest);
    case Str(s) => StrReadsBack(s, rest);
    case Not(x) =>
      DelimitedReadsBack(x, ")" + rest);
      NotReadsBack(x, Normal(x), rest);
    case Binary(op, a, b) =>
      DelimitedReadsBack(a, OpText(op) + (Render(b) + (")" + rest)));
      DelimitedReadsBack(b, ")" + rest);
      BinaryReadsBack(op, a, b, Normal(a), Normal(b), rest);
    case NullTest(x, isNull) =>
      DelimitedReadsBack(x, (if isNull then " IS NULL)" else " IS NOT NULL)") + rest);
      NullTestReadsBack(x, Normal(x), isNull, (if isNull then " IS NULL)" else " IS NOT NULL)") + rest, rest);
    case Belongs(x, items) =>
      if items == [] {
        NeverReadsBack(rest);
      } else {
        DelimitedReadsBack(x, " IN (" + (RenderItems(items) + ("))" + rest)));
        ItemsReadBack(items, "))" + rest);
        BelongsReadsBack(x, items, Normal(x), NormalItems(items), rest);
      }
    case Case(x, upper) =>
      DelimitedReadsBack(x, ")" + rest);
      CaseReadsBack(x, Normal(x), upper, rest);
  }

  lemma {:induction false} ItemsReadBack(items: seq<Expr>, rest: string)
    requires items != [] && (forall i | 0 <= i < |items| :: PlainNames(items[i])) && Stops(rest)
             && (rest == "" || rest[0] != ',')
    ensures ReadItems(RenderItems(items) + rest) == Some((NormalItems(items), rest))
    decreases items, 1
  {
    if |items| == 1 {
      DelimitedReadsBack(items[0], rest);
      OneItemReads(items[0], Normal(items[0]), rest);
      assert items == [items[0]] && NormalItems(items) == [Normal(items[0])];
    } else {
      DelimitedReadsBack(items[0], "," + (RenderItems(items[1..]) + rest));
      ItemsReadBack(items[1..], rest);
      MoreItemsRead(items[0], items[1..], Normal(items[0]), NormalItems(items[1..]), rest);
      assert items == [items[0]] + items[1..];
    }
  }

  /** Unique readability: from its text followed by a suffix the reader recovers the tree, up to operands
      that were never rendered, exactly when the suffix does not go on with a number or literal at the
      end of the text. */
  lemma ReadsBack(e: Expr, rest: string)
    requires PlainNames(e)
    ensures Read(Render(e) + rest) == Some((Normal(e), rest)) <==> Delimited(e, rest)
  {
    match e
    case Int(n) => IntReadsBack(n, rest);
    case Str(s) => StrReadsBack(s, rest);
    case _ => DelimitedReadsBack(e, rest);
  }

  lemma {:induction false} NormalRendersAlike(e: Expr)
    ensures Render(Normal(e)) == Render(e)
    decreases e, 0
  {
    match e
    case Not(x) => NormalRendersAlike(x);
    case Binary(_, a, b) => NormalRendersAlike(a); NormalRendersAlike(b);
    case NullTest(x, _) => NormalRendersAlike(x);
    case Belongs(x, items) =>
      NormalRendersAlike(x);
      if items != [] {
        NormalItemsRenderAlike(items);
      }
    case Case(x, _) => NormalRendersAlike(x);
    case _ =>
  }

  lemma {:induction false} NormalItemsRenderAlike(items: seq<Expr>)
    requires items != []
    ensures RenderItems(NormalItems(items)) == RenderItems(items)
    decreases items, 1
  {
    NormalRendersAlike(items[0]);
    if |items| > 1 {
      NormalItemsRenderAlike(items[1..]);
      assert NormalItems(items)[1..] == NormalItems(items[1..]);
    }
  }

  /** Two trees render alike exactly when they differ at most in the operands of empty `belongs` tests. */
  lemma SameTextIff(a: Expr, b: Expr)
    requires PlainNames(a) && PlainNames(b)
    ensures Render(a) == Render(b) <==> Normal(a) == Normal(b)
  {
    ReadsBack(a, "");
    ReadsBack(b, "");
    assert Render(a) + "" == Render(a) && Render(b) + "" == Render(b);
    NormalRendersAlike(a);
    NormalRendersAlike(b);
  }
}
