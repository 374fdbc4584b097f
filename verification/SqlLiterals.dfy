/** String literals and decimal numbers in SQL text, with the readers that undo them. */
module SqlLiterals {
  import opened Options

  /** `s.replace(c, with)` for a single character. */
  function Replace(s: string, c: char, with: string): string {
    if s == "" then "" else (if s[0] == c then with else [s[0]]) + Replace(s[1..], c, with)
  }

  lemma {:induction false} ReplaceAppend(a: string, b: string, c: char, with: string)
    ensures Replace(a + b, c, with) == Replace(a, c, with) + Replace(b, c, with)
    decreases |a|
  {
    if a == "" {
      assert a + b == b;
    } else {
      assert (a + b)[1..] == a[1..] + b;
      ReplaceAppend(a[1..], b, c, with);
    }
  }

  /** `adapt`: a quoted literal, quotes doubled */
  function Adapt(s: string): string { "'" + Replace(s, '\'', "''") + "'" }

  /** The rest of a literal after its opening quote: its value and the text behind it. */
  function ReadQuoted(text: string): Option<(string, string)>
    decreases |text|
  {
    if text == "" then None
    else if text[0] != '\'' then
      match ReadQuoted(text[1..])
      case None => None
      case Some((v, rest)) => Some(([text[0]] + v, rest))
    else if |text| > 1 && text[1] == '\'' then
      match ReadQuoted(text[2..])
      case None => None
      case Some((v, rest)) => Some(("'" + v, rest))
    else Some(("", text[1..]))
  }

  function ReadLiteral(text: string): Option<(string, string)> {
    if text == "" || text[0] != '\'' then None else ReadQuoted(text[1..])
  }

  lemma {:induction false} QuotedReadsBack(s: string, rest: string)
    requires rest == "" || rest[0] != '\''
    ensures ReadQuoted(Replace(s, '\'', "''") + "'" + rest) == Some((s, rest))
    decreases |s|
  {
    var text := Replace(s, '\'', "''") + "'" + rest;
    if s == "" {
      assert text == "'" + rest && text[1..] == rest;
    } else {
      QuotedReadsBack(s[1..], rest);
      var tail := Replace(s[1..], '\'', "''") + "'" + rest;
      assert s == [s[0]] + s[1..];
      if s[0] == '\'' {
        assert text == "''" + tail && text[2..] == tail;
      } else {
        assert text == [s[0]] + tail && text[1..] == tail;
      }
    }
  }

  /** A quote right behind the literal is taken for more of it. */
  lemma {:induction false} QuotedReadsOn(s: string, rest: string)
    requires rest != "" && rest[0] == '\''
    ensures var r := ReadQuoted(Replace(s, '\'', "''") + "'" + rest); r.Some? ==> |r.value.0| > |s|
    decreases |s|
  {
    var text := Replace(s, '\'', "''") + "'" + rest;
    if s == "" {
      assert text == "'" + rest && text[1] == '\'';
    } else {
      QuotedReadsOn(s[1..], rest);
      var tail := Replace(s[1..], '\'', "''") + "'" + rest;
      if s[0] == '\'' {
        assert text == "''" + tail && text[2..] == tail;
      } else {
        assert text == [s[0]] + tail && text[1..] == tail;
      }
    }
  }

  /** A literal is read back, whatever quotes it contains, exactly when no quote follows it. */
  lemma LiteralReadsBack(s: string, rest: string)
    ensures ReadLiteral(Adapt(s) + rest) == Some((s, rest)) <==> rest == "" || rest[0] != '\''
  {
    assert (Adapt(s) + rest)[1..] == Replace(s, '\'', "''") + "'" + rest;
    if rest == "" || rest[0] != '\'' {
      QuotedReadsBack(s, rest);
    } else {
      QuotedReadsOn(s, rest);
    }
  }

  // ----- Decimal numbers

  predicate IsDigit(c: char) { '0' <= c <= '9' }

  function Digit(d: nat): char
    requires d < 10
  {
    '0' + d as char
  }

  function Value(c: char): nat
    requires IsDigit(c)
  {
    (c - '0') as nat
  }

  function Decimal(n: nat): (s: string)
    ensures s != "" && forall i | 0 <= i < |s| :: IsDigit(s[i])
  {
    if n < 10 then [Digit(n)] else Decimal(n / 10) + [Digit(n % 10)]
  }

  function DigitRun(s: string): (n: nat)
    ensures n <= |s| && (forall i | 0 <= i < n :: IsDigit(s[i])) && (n < |s| ==> !IsDigit(s[n]))
  {
    if s != "" && IsDigit(s[0]) then 1 + DigitRun(s[1..]) else 0
  }

  function Number(s: string): nat
    requires forall i | 0 <= i < |s| :: IsDigit(s[i])
  {
    if s == "" then 0 else 10 * Number(s[..|s| - 1]) + Value(s[|s| - 1])
  }

  lemma {:induction false} DecimalValue(n: nat)
    ensures Number(Decimal(n)) == n
  {
    if n < 10 {
      assert Decimal(n)[..0] == "";
    } else {
      DecimalValue(n / 10);
      var s := Decimal(n);
      assert s[..|s| - 1] == Decimal(n / 10);
    }
  }

  lemma {:induction false} DigitRunStops(s: string, rest: string)
    requires (forall i | 0 <= i < |s| :: IsDigit(s[i])) && (rest == "" || !IsDigit(rest[0]))
    ensures DigitRun(s + rest) == |s|
    decreases |s|
  {
    if s == "" {
      assert s + rest == rest;
    } else {
      assert (s + rest)[1..] == s[1..] + rest;
      DigitRunStops(s[1..], rest);
    }
  }

  /** A non-negative number in front of text that does not go on with a digit. */
  function ReadNat(text: string): Option<(nat, string)> {
    var n := DigitRun(text);
    if n == 0 then None else Some((Number(text[..n]), text[n..]))
  }

  lemma {:induction false} DigitRunGoesOn(s: string, rest: string)
    requires (forall i | 0 <= i < |s| :: IsDigit(s[i])) && rest != "" && IsDigit(rest[0])
    ensures DigitRun(s + rest) > |s|
    decreases |s|
  {
    if s == "" {
      assert s + rest == rest;
    } else {
      assert (s + rest)[1..] == s[1..] + rest;
      DigitRunGoesOn(s[1..], rest);
    }
  }

  /** A number is read back exactly when no digit follows it. */
  lemma NatReadsBack(n: nat, rest: string)
    ensures ReadNat(Decimal(n) + rest) == Some((n, rest)) <==> rest == "" || !IsDigit(rest[0])
  {
    if rest == "" || !IsDigit(rest[0]) {
      DigitRunStops(Decimal(n), rest);
      DecimalValue(n);
      assert (Decimal(n) + rest)[..|Decimal(n)|] == Decimal(n);
      assert (Decimal(n) + rest)[|Decimal(n)|..] == rest;
    } else {
      DigitRunGoesOn(Decimal(n), rest);
    }
  }
}
