/** `startswith`, `endswith`, `contains` and `like`: the text the SQL dialect emits, against the LIKE
    predicate with ESCAPE of section 8.5 of SQL-92.
  */
module Like {
  import opened Options
  import opened SqlLiterals

  // ----- The dialect

  /** `_like_escaper_default` */
  function EscapeTerm(term: string): string {
    Replace(Replace(Replace(term, '\\', "\\\\"), '%', "\\%"), '_', "\\_")
  }

  /** `(column LIKE literal ESCAPE '\')` */
  function LikeText(column: string, literal: string): string {
    "(" + column + " LIKE " + literal + " ESCAPE '\\')"
  }

  function StartsWith(column: string, p: string): string { LikeText(column, Adapt(EscapeTerm(p) + "%")) }

  function EndsWith(column: string, p: string): string { LikeText(column, Adapt("%" + EscapeTerm(p))) }

  /** Case-sensitive, on a string column. */
  function Contains(column: string, p: string): string { LikeText(column, Adapt("%" + EscapeTerm(p) + "%")) }

  /** `like` without an escape argument: backslashes are doubled in the finished literal. */
  function LikePattern(column: string, pattern: string): string {
    LikeText(column, Replace(Adapt(pattern), '\\', "\\\\"))
  }

  // ----- The LIKE predicate

  /** A pattern is a sequence of substring specifiers. */
  datatype Specifier = AnyString | AnyChar | Exactly(c: char)

  /** None: the escape character does not stand before an escape character, percent or underscore. */
  function Specifiers(pattern: string): Option<seq<Specifier>>
    decreases |pattern|
  {
    if pattern == "" then Some([])
    else if pattern[0] == '\\' then
      if |pattern| == 1 || pattern[1] !in "\\%_" then None
      else
        match Specifiers(pattern[2..])
        case None => None
        case Some(rest) => Some([Exactly(pattern[1])] + rest)
    else
      match Specifiers(pattern[1..])
      case None => None
      case Some(rest) =>
        Some([if pattern[0] == '%' then AnyString
              else if pattern[0] == '_' then AnyChar
              else Exactly(pattern[0])] + rest)
  }

  /** The value can be partitioned into substrings that correspond to the specifiers. */
  ghost predicate Matches(items: seq<Specifier>, s: string)
    decreases |items|
  {
    if items == [] then s == ""
    else
      match items[0]
      case Exactly(c) => s != "" && s[0] == c && Matches(items[1..], s[1..])
      case AnyChar => s != "" && Matches(items[1..], s[1..])
      case AnyString => exists k :: 0 <= k <= |s| && Matches(items[1..], s[k..])
  }

  /** The column's value satisfies the condition in `text`. */
  ghost predicate Satisfies(text: string, column: string, s: string) {
    exists pattern :: ReadsAs(text, column, pattern) && Specifiers(pattern).Some?
        && Matches(Specifiers(pattern).value, s)
  }

  /** `text` is `(column LIKE <literal> ESCAPE '\')`, the literal standing for `pattern`. */
  ghost predicate ReadsAs(text: string, column: string, pattern: string) {
    var head := "(" + column + " LIKE ";
    head <= text && ReadLiteral(text[|head|..]) == Some((pattern, " ESCAPE '\\')"))
  }

  lemma LikeTextReads(column: string, pattern: string)
    ensures forall p :: ReadsAs(LikeText(column, Adapt(pattern)), column, p) <==> p == pattern
  {
    var head, tail := "(" + column + " LIKE ", " ESCAPE '\\')";
    var text := LikeText(column, Adapt(pattern));
    assert text == head + (Adapt(pattern) + tail);
    assert text[|head|..] == Adapt(pattern) + tail;
    LiteralReadsBack(pattern, tail);
  }

  // ----- Escaped text stands for itself

  function Literally(p: string): seq<Specifier> {
    if p == "" then [] else [Exactly(p[0])] + Literally(p[1..])
  }

  function EscapeChar(c: char): string {
    if c == '\\' || c == '%' || c == '_' then ['\\', c] else [c]
  }

  lemma {:induction false} EscapeTermByChar(p: string)
    ensures EscapeTerm(p) == if p == "" then "" else EscapeChar(p[0]) + EscapeTerm(p[1..])
  {
    if p != "" {
      var c := p[0];
      var one := if c == '\\' then "\\\\" else [c];
      ReplaceAppend(one, Replace(p[1..], '\\', "\\\\"), '%', "\\%");
      var two := Replace(one, '%', "\\%");
      assert two == if c == '\\' then "\\\\" else if c == '%' then "\\%" else [c] by {
        assert "\\\\"[1..] == "\\" && "\\"[1..] == "" && [c][1..] == "";
      }
      ReplaceAppend(two, Replace(Replace(p[1..], '\\', "\\\\"), '%', "\\%"), '_', "\\_");
      assert Replace(two, '_', "\\_") == EscapeChar(c) by {
        assert "\\\\"[1..] == "\\" && "\\"[1..] == "" && "\\%"[1..] == "%" && "%"[1..] == "" && [c][1..] == "";
      }
    }
  }

  lemma EscapedChar(c: char, tail: string)
    requires Specifiers(tail).Some?
    ensures Specifiers(EscapeChar(c) + tail) == Some([Exactly(c)] + Specifiers(tail).value)
  {
    assert (EscapeChar(c) + tail)[|EscapeChar(c)|..] == tail;
  }

  lemma {:induction false} EscapedSpecifiers(p: string, rest: string)
    requires Specifiers(rest).Some?
    ensures Specifiers(EscapeTerm(p) + rest) == Some(Literally(p) + Specifiers(rest).value)
    decreases |p|
  {
    EscapeTermByChar(p);
    var last := Specifiers(rest).value;
    if p == "" {
      assert EscapeTerm(p) + rest == rest && Literally(p) + last == last;
    } else {
      EscapedSpecifiers(p[1..], rest);
      var e := EscapeTerm(p[1..]);
      EscapedChar(p[0], e + rest);
      Associate(EscapeChar(p[0]), e, rest);
      Associate([Exactly(p[0])], Literally(p[1..]), last);
    }
  }

  lemma Associate<T>(a: seq<T>, b: seq<T>, c: seq<T>)
    ensures a + b + c == a + (b + c)
  {
  }

  lemma {:induction false} MatchesLiterally(p: string, rest: seq<Specifier>, s: string)
    ensures Matches(Literally(p) + rest, s) <==> p <= s && Matches(rest, s[|p|..])
    decreases |p|
  {
    if p == "" {
      assert Literally(p) + rest == rest && s[0..] == s;
    } else {
      assert (Literally(p) + rest)[1..] == Literally(p[1..]) + rest;
      if s != "" && s[0] == p[0] {
        MatchesLiterally(p[1..], rest, s[1..]);
        assert p == [p[0]] + p[1..] && s == [s[0]] + s[1..];
        if p <= s {
          assert s[1..][|p[1..]|..] == s[|p|..];
        }
      }
    }
  }

  lemma MatchesAnything(s: string)
    ensures Matches([AnyString], s)
  {
    assert s[|s|..] == "" && [AnyString][1..] == [];
  }

  lemma PercentSpecifiers(pattern: string)
    requires Specifiers(pattern).Some?
    ensures Specifiers("%" + pattern) == Some([AnyString] + Specifiers(pattern).value)
    ensures Specifiers("%") == Some([AnyString])
  {
    assert ("%" + pattern)[1..] == pattern;
    assert "%"[1..] == "" && [AnyString] + [] == [AnyString];
    assert Specifiers("") == Some([]);
  }

  /** The condition holds of exactly the values that begin with `p`, whatever `p` contains. */
  lemma StartsWithIsPrefix(column: string, p: string, s: string)
    ensures Satisfies(StartsWith(column, p), column, s) <==> p <= s
  {
    LikeTextReads(column, EscapeTerm(p) + "%");
    PercentSpecifiers("");
    EscapedSpecifiers(p, "%");
    MatchesLiterally(p, [AnyString], s);
    if p <= s {
      MatchesAnything(s[|p|..]);
    }
  }

  ghost predicate HasSuffix(s: string, p: string) { |p| <= |s| && s[|s| - |p|..] == p }

  ghost predicate HasSubstring(s: string, p: string) { exists k :: 0 <= k <= |s| && p <= s[k..] }

  /** ... that end with `p`. */
  lemma EndsWithIsSuffix(column: string, p: string, s: string)
    ensures Satisfies(EndsWith(column, p), column, s) <==> HasSuffix(s, p)
  {
    var pattern := EscapeTerm(p) + "";
    assert pattern == EscapeTerm(p);
    LikeTextReads(column, "%" + EscapeTerm(p));
    EscapedSpecifiers(p, "");
    PercentSpecifiers(EscapeTerm(p));
    var items := [AnyString] + (Literally(p) + []);
    assert items[1..] == Literally(p) + [];
    forall k | 0 <= k <= |s| ensures Matches(items[1..], s[k..]) <==> s[k..] == p {
      MatchesLiterally(p, [], s[k..]);
    }
    if HasSuffix(s, p) {
      assert Matches(items[1..], s[|s| - |p|..]);
    }
  }

  /** ... that contain `p`. */
  lemma ContainsIsSubstring(column: string, p: string, s: string)
    ensures Satisfies(Contains(column, p), column, s) <==> HasSubstring(s, p)
  {
    assert "%" + EscapeTerm(p) + "%" == "%" + (EscapeTerm(p) + "%");
    LikeTextReads(column, "%" + (EscapeTerm(p) + "%"));
    PercentSpecifiers("");
    EscapedSpecifiers(p, "%");
    PercentSpecifiers(EscapeTerm(p) + "%");
    var items := [AnyString] + (Literally(p) + [AnyString]);
    assert items[1..] == Literally(p) + [AnyString];
    forall k | 0 <= k <= |s| ensures Matches(items[1..], s[k..]) <==> p <= s[k..] {
      MatchesLiterally(p, [AnyString], s[k..]);
      if p <= s[k..] {
        MatchesAnything(s[k..][|p|..]);
      }
    }
  }

  // ----- `like` itself

  /** The caller's pattern: percent and underscore are wildcards, a backslash is an ordinary character. */
  function UserSpecifiers(pattern: string): seq<Specifier> {
    if pattern == "" then []
    else [if pattern[0] == '%' then AnyString else if pattern[0] == '_' then AnyChar else Exactly(pattern[0])]
         + UserSpecifiers(pattern[1..])
  }

  lemma {:induction false} DoubledSpecifiers(pattern: string)
    ensures Specifiers(Replace(pattern, '\\', "\\\\")) == Some(UserSpecifiers(pattern))
  {
    if pattern != "" {
      DoubledSpecifiers(pattern[1..]);
      var tail := Replace(pattern[1..], '\\', "\\\\");
      var text := Replace(pattern, '\\', "\\\\");
      if pattern[0] == '\\' {
        assert text == "\\\\" + tail && text[2..] == tail;
      } else {
        assert text == [pattern[0]] + tail && text[1..] == tail;
      }
    }
  }

  /** A percent stands for any text, an underscore for any character, anything else for itself. */
  lemma WildcardsMean(c: char, s: string)
    ensures Matches(UserSpecifiers([c]), s) <==> if c == '%' then true else if c == '_' then |s| == 1 else s == [c]
  {
    assert [c][1..] == "" && UserSpecifiers("") == [];
    assert UserSpecifiers([c])[1..] == [];
    if c == '%' {
      assert s[|s|..] == "" && Matches(UserSpecifiers([c])[1..], s[|s|..]);
    } else if |s| == 1 {
      assert s[1..] == "" && s == [s[0]];
    }
  }

  /** A pattern in two parts matches what splits into a match of each. */
  lemma {:induction false} PatternsJoin(p: string, q: string)
    ensures UserSpecifiers(p + q) == UserSpecifiers(p) + UserSpecifiers(q)
    decreases |p|
  {
    if p == "" {
      assert p + q == q && UserSpecifiers(p) + UserSpecifiers(q) == UserSpecifiers(q);
    } else {
      assert (p + q)[1..] == p[1..] + q;
      PatternsJoin(p[1..], q);
    }
  }

  /** Doubling backslashes in the literal is doubling them in its value. */
  lemma {:induction false} DoublingCommutes(s: string)
    ensures Replace(Replace(s, '\'', "''"), '\\', "\\\\") == Replace(Replace(s, '\\', "\\\\"), '\'', "''")
  {
    if s != "" {
      DoublingCommutes(s[1..]);
      var c := s[0];
      var one, two := if c == '\'' then "''" else [c], if c == '\\' then "\\\\" else [c];
      ReplaceAppend(one, Replace(s[1..], '\'', "''"), '\\', "\\\\");
      ReplaceAppend(two, Replace(s[1..], '\\', "\\\\"), '\'', "''");
      assert Replace(one, '\\', "\\\\") == Replace(two, '\'', "''") by {
        assert "''"[1..] == "'" && "'"[1..] == "" && "\\\\"[1..] == "\\" && "\\"[1..] == "" && [c][1..] == "";
      }
    }
  }

  lemma LikeHonoursWildcards(column: string, pattern: string, s: string)
    ensures Satisfies(LikePattern(column, pattern), column, s) <==> Matches(UserSpecifiers(pattern), s)
  {
    var doubled := Replace(pattern, '\\', "\\\\");
    var quoted := Replace(pattern, '\'', "''");
    ReplaceAppend("'" + quoted, "'", '\\', "\\\\");
    ReplaceAppend("'", quoted, '\\', "\\\\");
    assert Replace("'", '\\', "\\\\") == "'" by { assert "'"[1..] == ""; }
    DoublingCommutes(pattern);
    assert Replace(Adapt(pattern), '\\', "\\\\") == Adapt(doubled);
    LikeTextReads(column, doubled);
    DoubledSpecifiers(pattern);
  }
}
