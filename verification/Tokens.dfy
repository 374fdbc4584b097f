/** The quoted-token printer and parser behind `IS_LIST_OF_STRINGS`. */
module Tokens {
  import opened Options
  import opened Text

  predicate IsSeparator(c: char) { c == ',' || c == ';' || c == ' ' }

  predicate NeedsQuoting(t: string) {
    exists i :: 0 <= i < |t| && (IsSeparator(t[i]) || t[i] == '"')
  }

  function EscapeQuotes(t: string): string {
    if t == "" then "" else (if t[0] == '"' then "\\\"" else [t[0]]) + EscapeQuotes(t[1..])
  }

  /** `quote_token` */
  function Quote(t: string): string {
    if NeedsQuoting(t) then "\"" + EscapeQuotes(t) + "\"" else t
  }

  /** `formatter` on a list: `", ".join(map(quote_token, value))` */
  function Format(ts: seq<string>): string {
    if ts == [] then "" else if |ts| == 1 then Quote(ts[0]) else Quote(ts[0]) + ", " + Format(ts[1..])
  }

  /** The parser between two characters. */
  datatype State = State(token: string, inQuotes: bool, escaped: bool, tokens: seq<string>)

  /** The finished tokens, a blank one dropped. */
  function Flush(tokens: seq<string>, token: string): seq<string> {
    if Strip(token) == "" then tokens else tokens + [Strip(token)]
  }

  function Advance(s: State, c: char): State {
    if s.inQuotes then
      if s.escaped then s.(token := s.token + [c], escaped := false)
      else if c == '\\' then s.(escaped := true)
      else if c == '"' then s.(inQuotes := false)
      else s.(token := s.token + [c])
    else if IsSeparator(c) then s.(tokens := Flush(s.tokens, s.token), token := "")
    else if c == '"' then s.(inQuotes := true)
    else s.(token := s.token + [c])
  }

  function Feed(s: State, line: string): State
    decreases |line|
  {
    if line == "" then s else Feed(Advance(s, line[0]), line[1..])
  }

  const START: State := State("", false, false, [])

  function Parse(line: string): seq<string> {
    var s := Feed(START, line);
    Flush(s.tokens, s.token)
  }

  /** `parse_tokens` */
  method ParseTokens(line: string) returns (tokens: seq<string>)
    ensures tokens == Parse(line)
  {
    tokens := [];
    var token, inQuotes, escaped := "", false, false;
    for i := 0 to |line|
      invariant Feed(START, line) == Feed(State(token, inQuotes, escaped, tokens), line[i..])
    {
      assert line[i..][1..] == line[i + 1..];
      var c := line[i];
      if inQuotes {
        if escaped {
          token := token + [c];
          escaped := false;
        } else if c == '\\' {
          escaped := true;
        } else if c == '"' {
          inQuotes := false;
        } else {
          token := token + [c];
        }
      } else if IsSeparator(c) {
        tokens := Flush(tokens, token);
        token := "";
      } else if c == '"' {
        inQuotes := true;
      } else {
        token := token + [c];
      }
    }
    tokens := Flush(tokens, token);
  }

  // ----- What separates

  /** Outside quotes a comma, a semicolon or a blank ends a token: the two sides are read on their own. */
  lemma SeparatorSplits(a: string, c: char, b: string)
    requires c == ',' || c == ';' || c == ' '
    requires !Feed(START, a).inQuotes && !Feed(START, a).escaped
    ensures Parse(a + [c] + b) == Parse(a) + Parse(b)
  {
    var s := Feed(START, a);
    FeedAppend(START, a + [c], b);
    FeedAppend(START, a, [c]);
    assert [c][1..] == "";
    assert Feed(START, a + [c]) == State("", false, false, Parse(a));
    TokensAppend(Parse(a), START, b);
    assert START.tokens == [] && Parse(a) + START.tokens == Parse(a);
  }

  /** What has been read before does not matter for what is read next. */
  lemma {:induction false} TokensAppend(before: seq<string>, s: State, line: string)
    ensures var r := Feed(s.(tokens := before + s.tokens), line);
            r == Feed(s, line).(tokens := before + Feed(s, line).tokens)
            && Flush(r.tokens, r.token) == before + Flush(Feed(s, line).tokens, Feed(s, line).token)
    decreases |line|
  {
    if line != "" {
      var next := Advance(s, line[0]);
      assert before + Flush(s.tokens, s.token) == Flush(before + s.tokens, s.token);
      assert Advance(s.(tokens := before + s.tokens), line[0]) == next.(tokens := before + next.tokens);
      TokensAppend(before, next, line[1..]);
    }
  }

  /** Nothing else does: a text without those and without a double quote, trimmed, is one token. */
  lemma PlainIsOneToken(t: string)
    requires Trimmed(t) && ',' !in t && ';' !in t && ' ' !in t && '"' !in t
    ensures Parse(t) == [t]
  {
    FeedPlain(START, t);
    assert "" + t == t;
    StripTrimmed(t);
  }

  // ----- Round trip

  lemma {:induction false} FeedAppend(s: State, a: string, b: string)
    ensures Feed(s, a + b) == Feed(Feed(s, a), b)
    decreases |a|
  {
    if a == "" {
      assert a + b == b;
    } else {
      assert (a + b)[1..] == a[1..] + b;
      FeedAppend(Advance(s, a[0]), a[1..], b);
    }
  }

  /** Tokens that come back: not blank at either end, and without backslash if they need quoting. */
  ghost predicate Faithful(t: string) {
    Trimmed(t) && (NeedsQuoting(t) ==> '\\' !in t)
  }

  lemma {:induction false} FeedPlain(s: State, t: string)
    requires !s.inQuotes && !NeedsQuoting(t)
    ensures Feed(s, t) == s.(token := s.token + t)
    decreases |t|
  {
    if t == "" {
      assert s.token + t == s.token;
    } else {
      assert !IsSeparator(t[0]) && t[0] != '"';
      assert !NeedsQuoting(t[1..]) by {
        assert forall i | 0 <= i < |t[1..]| :: t[1..][i] == t[i + 1];
      }
      FeedPlain(Advance(s, t[0]), t[1..]);
      assert s.token + [t[0]] + t[1..] == s.token + t;
    }
  }

  lemma {:induction false} FeedEscaped(s: State, t: string)
    requires s.inQuotes && !s.escaped && '\\' !in t
    ensures Feed(s, EscapeQuotes(t)) == s.(token := s.token + t)
    decreases |t|
  {
    if t == "" {
      assert s.token + t == s.token;
    } else {
      var head := if t[0] == '"' then "\\\"" else [t[0]];
      FeedAppend(s, head, EscapeQuotes(t[1..]));
      assert Feed(s, head) == s.(token := s.token + [t[0]]) by {
        assert head[1..] == if t[0] == '"' then "\"" else "";
        assert "\""[1..] == "";
      }
      FeedEscaped(s.(token := s.token + [t[0]]), t[1..]);
      assert s.token + [t[0]] + t[1..] == s.token + t;
    }
  }

  /** Outside quotes a printed token adds itself to the token being read. */
  lemma FeedQuoted(s: State, t: string)
    requires !s.inQuotes && !s.escaped && (NeedsQuoting(t) ==> '\\' !in t)
    ensures Feed(s, Quote(t)) == s.(token := s.token + t)
  {
    if NeedsQuoting(t) {
      var body := EscapeQuotes(t);
      var inside := s.(inQuotes := true);
      assert Quote(t)[0] == '"' && Quote(t)[1..] == body + "\"";
      FeedAppend(inside, body, "\"");
      FeedEscaped(inside, t);
      assert "\""[1..] == "";
    } else {
      FeedPlain(s, t);
    }
  }

  lemma FeedComma(s: State)
    requires !s.inQuotes && !s.escaped
    ensures Feed(s, ", ") == s.(token := "", tokens := Flush(s.tokens, s.token))
  {
    assert ", "[1..] == " " && " "[1..] == "";
  }

  lemma FeedOneFormatted(s: State, t: string)
    requires !s.inQuotes && !s.escaped && s.token == "" && Faithful(t)
    ensures var r := Feed(s, Quote(t)); r == s.(token := t) && Flush(r.tokens, r.token) == s.tokens + [t]
    ensures Feed(s, Quote(t) + ", ") == s.(tokens := s.tokens + [t])
  {
    FeedQuoted(s, t);
    StripTrimmed(t);
    assert "" + t == t;
    FeedAppend(s, Quote(t), ", ");
    FeedComma(s.(token := t));
  }

  lemma {:induction false} FeedFormat(s: State, ts: seq<string>)
    requires !s.inQuotes && !s.escaped && s.token == "" && forall i | 0 <= i < |ts| :: Faithful(ts[i])
    ensures var r := Feed(s, Format(ts)); Flush(r.tokens, r.token) == s.tokens + ts
    decreases |ts|
  {
    if ts == [] {
      assert s.tokens + ts == s.tokens;
    } else {
      FeedOneFormatted(s, ts[0]);
      if |ts| == 1 {
        assert ts == [ts[0]];
      } else {
        FeedAppend(s, Quote(ts[0]) + ", ", Format(ts[1..]));
        FeedFormat(s.(tokens := s.tokens + [ts[0]]), ts[1..]);
        assert s.tokens + [ts[0]] + ts[1..] == s.tokens + ts;
      }
    }
  }

  /** Formatting a list of faithful tokens and parsing the line gives the list back. */
  lemma ParseFormat(ts: seq<string>)
    requires forall i | 0 <= i < |ts| :: Faithful(ts[i])
    ensures Parse(Format(ts)) == ts
  {
    FeedFormat(START, ts);
    assert START.tokens + ts == ts;
  }

  /** A further token comes behind a comma and a blank. */
  lemma {:induction false} FormatGrows(ts: seq<string>, t: string)
    ensures Format(ts + [t]) == if ts == [] then Quote(t) else Format(ts) + ", " + Quote(t)
    decreases |ts|
  {
    if |ts| > 1 {
      FormatGrows(ts[1..], t);
      assert (ts + [t])[1..] == ts[1..] + [t];
      assert Quote(ts[0]) + ", " + (Format(ts[1..]) + ", " + Quote(t))
          == Quote(ts[0]) + ", " + Format(ts[1..]) + ", " + Quote(t);
    } else if |ts| == 1 {
      assert (ts + [t])[1..] == [t];
    }
  }

  /** Only tokens with a separator or a double quote are put between quotes. */
  lemma UnquotedIff(t: string)
    ensures Quote(t) == t <==> ',' !in t && ';' !in t && ' ' !in t && '"' !in t
  {
    EscapedLonger(t);
    if NeedsQuoting(t) {
      var i :| 0 <= i < |t| && (IsSeparator(t[i]) || t[i] == '"');
      assert t[i] in t;
    } else {
      forall c | c in t ensures c != ',' && c != ';' && c != ' ' && c != '"' {
        var i :| 0 <= i < |t| && t[i] == c;
      }
    }
  }

  lemma {:induction false} EscapedLonger(t: string)
    ensures |EscapeQuotes(t)| >= |t|
    decreases |t|
  {
    if t != "" {
      EscapedLonger(t[1..]);
    }
  }

  // ----- And only faithful tokens come back

  predicate IsMark(c: char) { c == '\\' || c == '"' }

  /** Backslashes and double quotes in a text. */
  function Marks(t: string): nat {
    if t == "" then 0 else Marks(t[..|t| - 1]) + if IsMark(t[|t| - 1]) then 1 else 0
  }

  function AllMarks(ts: seq<string>): nat {
    if ts == [] then 0 else AllMarks(ts[..|ts| - 1]) + Marks(ts[|ts| - 1])
  }

  function SlashIn(c: char): nat { if c == '\\' then 1 else 0 }

  function Slashes(line: string): nat {
    if line == "" then 0 else SlashIn(line[0]) + Slashes(line[1..])
  }

  /** Marks kept so far, and the one an open escape may still keep. */
  function Held(s: State): nat { AllMarks(s.tokens) + Marks(s.token) + if s.escaped then 1 else 0 }

  lemma {:induction false} MarksOfSum(a: string, b: string)
    ensures Marks(a + b) == Marks(a) + Marks(b)
    decreases |b|
  {
    if b == "" {
      assert a + b == a;
    } else {
      assert (a + b)[..|a + b| - 1] == a + b[..|b| - 1];
      MarksOfSum(a, b[..|b| - 1]);
    }
  }

  lemma {:induction false} StripFinds(t: string) returns (i: nat)
    ensures i + |Strip(t)| <= |t| && t[i..i + |Strip(t)|] == Strip(t)
    decreases |t|
  {
    if t != "" && IsSpace(t[0]) {
      assert Strip(t) == Strip(t[1..]);
      var k := |Strip(t)|;
      i := StripFinds(t[1..]);
      SliceOfTail(t, i, k);
      i := i + 1;
    } else {
      i := 0;
      assert Strip(t) == RStrip(t) == t[..|RStrip(t)|];
    }
  }

  lemma SliceOfTail(t: string, i: nat, k: nat)
    requires i + 1 + k <= |t|
    ensures t[1..][i..i + k] == t[i + 1..i + 1 + k]
  {
  }

  lemma FlushHolds(tokens: seq<string>, token: string)
    ensures AllMarks(Flush(tokens, token)) <= AllMarks(tokens) + Marks(token)
  {
    var i := StripFinds(token);
    var j := i + |Strip(token)|;
    MarksOfSum(token[..i], token[i..j]);
    MarksOfSum(token[..j], token[j..]);
    assert token == token[..j] + token[j..] && token[..j] == token[..i] + token[i..j];
    assert (tokens + [Strip(token)])[..|tokens|] == tokens;
  }

  lemma OneMoreMark(token: string, c: char)
    ensures Marks(token + [c]) == Marks(token) + if IsMark(c) then 1 else 0
  {
    assert (token + [c])[..|token|] == token;
  }

  lemma KeptHolds(s: State, c: char, escaped: bool)
    ensures Held(s.(token := s.token + [c], escaped := escaped))
            == AllMarks(s.tokens) + Marks(s.token) + (if IsMark(c) then 1 else 0) + if escaped then 1 else 0
  {
    OneMoreMark(s.token, c);
  }

  lemma FlushedHolds(s: State)
    ensures Held(s.(tokens := Flush(s.tokens, s.token), token := "")) <= Held(s)
  {
    FlushHolds(s.tokens, s.token);
    assert Marks("") == 0;
  }

  /** Only a backslash lets a mark be kept, and an escape spent on anything but a quote wastes it. */
  lemma AdvanceHolds(s: State, c: char)
    ensures Held(Advance(s, c)) <= Held(s) + SlashIn(c)
    ensures s.inQuotes && s.escaped && c != '"' ==> Held(Advance(s, c)) < Held(s) + SlashIn(c)
  {
    if s.inQuotes && s.escaped {
      KeptHolds(s, c, false);
    } else if !s.inQuotes && IsSeparator(c) {
      FlushedHolds(s);
    } else {
      KeptHolds(s, c, s.escaped);
      assert s.(token := s.token + [c], escaped := s.escaped) == s.(token := s.token + [c]);
    }
  }

  lemma {:induction false} FeedHolds(s: State, line: string)
    ensures Held(Feed(s, line)) <= Held(s) + Slashes(line)
    decreases |line|
  {
    if line != "" {
      AdvanceHolds(s, line[0]);
      FeedHolds(Advance(s, line[0]), line[1..]);
    }
  }

  lemma {:induction false} SlashesOfSum(a: string, b: string)
    ensures Slashes(a + b) == Slashes(a) + Slashes(b)
    decreases |a|
  {
    if a == "" {
      assert a + b == b;
    } else {
      assert (a + b)[1..] == a[1..] + b;
      SlashesOfSum(a[1..], b);
    }
  }

  lemma {:induction false} EscapedSlashes(t: string)
    ensures Slashes(EscapeQuotes(t)) == Marks(t)
    decreases |t|
  {
    if t != "" {
      var head := if t[0] == '"' then "\\\"" else [t[0]];
      assert t == [t[0]] + t[1..];
      MarksOfSum([t[0]], t[1..]);
      assert [t[0]][..0] == "";
      assert "\\\""[1..] == "\"" && "\""[1..] == "" && [t[0]][1..] == "";
      SlashesOfSum(head, EscapeQuotes(t[1..]));
      EscapedSlashes(t[1..]);
    }
  }

  lemma {:induction false} PlainSlashes(t: string)
    requires '"' !in t
    ensures Slashes(t) == Marks(t)
    decreases |t|
  {
    if t != "" {
      assert t == [t[0]] + t[1..];
      MarksOfSum([t[0]], t[1..]);
      assert [t[0]][..0] == "";
      PlainSlashes(t[1..]);
    }
  }

  /** The printer writes one backslash for each mark. */
  lemma QuotedSlashes(t: string)
    ensures Slashes(Quote(t)) == Marks(t)
  {
    if NeedsQuoting(t) {
      EscapedSlashes(t);
      assert "\""[1..] == "";
      SlashesOfSum("\"", EscapeQuotes(t));
      SlashesOfSum("\"" + EscapeQuotes(t), "\"");
    } else {
      PlainSlashes(t);
    }
  }

  lemma {:induction false} AllMarksOfSum(a: seq<string>, b: seq<string>)
    ensures AllMarks(a + b) == AllMarks(a) + AllMarks(b)
    decreases |b|
  {
    if b == [] {
      assert a + b == a;
    } else {
      assert (a + b)[..|a + b| - 1] == a + b[..|b| - 1];
      AllMarksOfSum(a, b[..|b| - 1]);
    }
  }

  lemma {:induction false} FormattedSlashes(ts: seq<string>)
    ensures Slashes(Format(ts)) == AllMarks(ts)
    decreases |ts|
  {
    if ts != [] {
      QuotedSlashes(ts[0]);
      assert ts == [ts[0]] + ts[1..] && [ts[0]][..0] == [];
      AllMarksOfSum([ts[0]], ts[1..]);
      if |ts| == 1 {
        assert ts[1..] == [];
      } else {
        FormattedSlashes(ts[1..]);
        assert ", "[1..] == " " && " "[1..] == "";
        SlashesOfSum(Quote(ts[0]), ", ");
        SlashesOfSum(Quote(ts[0]) + ", ", Format(ts[1..]));
      }
    }
  }

  /** What is read after `s` on a line. */
  function Rest(s: State, line: string): seq<string> {
    Flush(Feed(s, line).tokens, Feed(s, line).token)
  }

  lemma {:induction false} TokensStay(s: State, line: string)
    ensures s.tokens <= Rest(s, line)
    decreases |line|
  {
    if line != "" {
      TokensStay(Advance(s, line[0]), line[1..]);
    }
  }

  lemma {:induction false} RStripKeeps(p: string, q: string)
    requires Trimmed(p)
    ensures p <= RStrip(p + q)
    decreases |q|
  {
    if q == "" {
      assert p + q == p;
    } else {
      assert (p + q)[..|p + q| - 1] == p + q[..|q| - 1];
      RStripKeeps(p, q[..|q| - 1]);
    }
  }

  lemma PrefixOfToken(token: string, p: string)
    requires Trimmed(p) && p <= token
    ensures p <= Strip(token) && token != ""
  {
    RStripKeeps(p, token[|p|..]);
    assert token == p + token[|p|..];
  }

  /** A step lengthens the open token or finishes it. */
  lemma AdvanceStays(s: State, c: char, p: string)
    requires Trimmed(p) && p <= s.token
    ensures Advance(s, c).tokens == s.tokens ==> p <= Advance(s, c).token
    ensures Advance(s, c).tokens != s.tokens ==> Advance(s, c).tokens == s.tokens + [Strip(s.token)]
  {
    PrefixOfToken(s.token, p);
  }

  /** A token that begins with a trimmed text is read with that beginning. */
  lemma {:induction false} PrefixStays(s: State, line: string, p: string)
    requires Trimmed(p) && p <= s.token
    ensures |Rest(s, line)| > |s.tokens| && p <= Rest(s, line)[|s.tokens|]
    decreases |line|
  {
    PrefixOfToken(s.token, p);
    if line != "" {
      var next := Advance(s, line[0]);
      AdvanceStays(s, line[0], p);
      if next.tokens == s.tokens {
        PrefixStays(next, line[1..], p);
      } else {
        TokensStay(next, line[1..]);
      }
    }
  }

  lemma {:induction false} EscapedSum(a: string, b: string)
    ensures EscapeQuotes(a + b) == EscapeQuotes(a) + EscapeQuotes(b)
    decreases |a|
  {
    if a == "" {
      assert a + b == b;
    } else {
      assert (a + b)[1..] == a[1..] + b;
      EscapedSum(a[1..], b);
    }
  }

  lemma {:induction false} FirstSlash(t: string) returns (u: string, v: string)
    requires '\\' in t
    ensures t == u + "\\" + v && '\\' !in u
    decreases |t|
  {
    if t[0] == '\\' {
      u, v := "", t[1..];
    } else {
      u, v := FirstSlash(t[1..]);
      u := [t[0]] + u;
    }
  }

  lemma Nest(a: string, b: string, c: string, d: string, e: string, f: string)
    ensures a + (b + c + d) + e + f == a + (b + (c + (d + (e + f))))
  {
  }

  lemma SlashText(u: string, v: string, rest: string)
    requires NeedsQuoting(u + "\\" + v)
    ensures Quote(u + "\\" + v) + rest == "\"" + (EscapeQuotes(u) + ("\\" + (EscapeQuotes(v) + ("\"" + rest))))
  {
    EscapedSum(u + "\\", v);
    EscapedSum(u, "\\");
    assert "\\"[1..] == "" && EscapeQuotes("\\") == "\\";
    Nest("\"", EscapeQuotes(u), "\\", EscapeQuotes(v), "\"", rest);
  }

  /** The parser at the first backslash inside quotes, and the text still to come. */
  lemma AtSlash(s: State, u: string, tail: string)
    requires !s.inQuotes && !s.escaped && s.token == "" && '\\' !in u
    ensures Rest(s, "\"" + (EscapeQuotes(u) + ("\\" + tail)))
            == Rest(s.(inQuotes := true, token := u, escaped := true), tail)
  {
    var inside := s.(inQuotes := true);
    assert ("\"" + (EscapeQuotes(u) + ("\\" + tail)))[1..] == EscapeQuotes(u) + ("\\" + tail);
    FeedAppend(inside, EscapeQuotes(u), "\\" + tail);
    FeedEscaped(inside, u);
    assert inside.token + u == u && ("\\" + tail)[1..] == tail;
  }

  /** A backslash inside quotes is lost, and nothing later on the line makes up for it. */
  lemma SlashLost(s: State, t: string, rest: string, more: seq<string>)
    requires !s.inQuotes && !s.escaped && s.token == "" && Trimmed(t) && NeedsQuoting(t) && '\\' in t
    requires Slashes(rest) == AllMarks(more)
    ensures Rest(s, Quote(t) + rest) != s.tokens + ([t] + more)
  {
    var u, v := FirstSlash(t);
    var tail := EscapeQuotes(v) + ("\"" + rest);
    SlashText(u, v, rest);
    AtSlash(s, u, tail);
    var open := s.(inQuotes := true, token := u, escaped := true);
    if tail[0] == '"' {
      assert v == "";
      assert t == u + "\\";
      assert Trimmed(u + "\"") by {
        assert u != "" && u[0] == t[0];
      }
      PrefixStays(Advance(open, '"'), tail[1..], u + "\"");
      assert (u + "\"")[|u|] == '"' && t[|u|] == '\\';
    } else {
      AdvanceHolds(open, tail[0]);
      FeedHolds(Advance(open, tail[0]), tail[1..]);
      FlushHolds(Feed(open, tail).tokens, Feed(open, tail).token);
      MarksBalance(s.tokens, u, v, rest, more);
    }
  }

  lemma MarksBalance(tokens: seq<string>, u: string, v: string, rest: string, more: seq<string>)
    requires Slashes(rest) == AllMarks(more)
    ensures AllMarks(tokens + ([u + "\\" + v] + more))
            == AllMarks(tokens) + Marks(u) + 1 + Slashes(EscapeQuotes(v) + ("\"" + rest))
  {
    var t := u + "\\" + v;
    AllMarksOfSum(tokens, [t] + more);
    AllMarksOfSum([t], more);
    MarksOfSum(u + "\\", v);
    MarksOfSum(u, "\\");
    assert "\\"[..0] == "" && [t][..0] == [];
    EscapedSlashes(v);
    SlashesOfSum(EscapeQuotes(v), "\"" + rest);
    assert ("\"" + rest)[1..] == rest;
  }

  lemma {:induction false} ReadTrimmed(s: State, line: string)
    requires forall t | t in s.tokens :: Trimmed(t)
    ensures forall t | t in Rest(s, line) :: Trimmed(t)
    decreases |line|
  {
    if line != "" {
      ReadTrimmed(Advance(s, line[0]), line[1..]);
    }
  }

  lemma SeparatorText(first: string, others: string)
    ensures first + ", " + others == first + (", " + others)
    ensures Slashes(", " + others) == Slashes(others)
  {
    assert ", "[1..] == " " && " "[1..] == "";
    SlashesOfSum(", ", others);
  }

  lemma FormatGoesOn(s: State, ts: seq<string>)
    requires !s.inQuotes && !s.escaped && s.token == "" && |ts| > 1 && Faithful(ts[0])
    ensures Rest(s, Format(ts)) == Rest(s.(tokens := s.tokens + [ts[0]]), Format(ts[1..]))
  {
    FeedOneFormatted(s, ts[0]);
    FeedAppend(s, Quote(ts[0]) + ", ", Format(ts[1..]));
  }

  lemma {:induction false} OnlyFaithful(s: State, ts: seq<string>)
    requires !s.inQuotes && !s.escaped && s.token == "" && forall i | 0 <= i < |ts| :: Trimmed(ts[i])
    requires Rest(s, Format(ts)) == s.tokens + ts
    ensures forall i | 0 <= i < |ts| :: Faithful(ts[i])
    decreases |ts|
  {
    if ts != [] {
      assert ts == [ts[0]] + ts[1..];
      if !Faithful(ts[0]) {
        if |ts| == 1 {
          SlashLost(s, ts[0], "", []);
          assert Quote(ts[0]) + "" == Quote(ts[0]);
        } else {
          FormattedSlashes(ts[1..]);
          SeparatorText(Quote(ts[0]), Format(ts[1..]));
          SlashLost(s, ts[0], ", " + Format(ts[1..]), ts[1..]);
        }
      } else if |ts| > 1 {
        FormatGoesOn(s, ts);
        assert s.tokens + [ts[0]] + ts[1..] == s.tokens + ts;
        OnlyFaithful(s.(tokens := s.tokens + [ts[0]]), ts[1..]);
      }
    }
  }

  /** A list survives formatting and parsing exactly when each of its tokens is faithful. */
  lemma ComesBackIffFaithful(ts: seq<string>)
    ensures Parse(Format(ts)) == ts <==> forall i | 0 <= i < |ts| :: Faithful(ts[i])
  {
    if forall i | 0 <= i < |ts| :: Faithful(ts[i]) {
      ParseFormat(ts);
    }
    if Parse(Format(ts)) == ts {
      ReadTrimmed(START, Format(ts));
      assert forall i | 0 <= i < |ts| :: ts[i] in ts;
      assert START.tokens + ts == ts;
      OnlyFaithful(START, ts);
    }
  }

  // ----- The validator around the parser

  /** Text that `validate` hands to the JSON reader. */
  predicate Bracketed(line: string) {
    line != "" && line[0] == '[' && line[|line| - 1] == ']'
  }

  /** `validate` on a string; None is the validation error. `json` is what the JSON reader makes of it. */
  function Validate(json: string -> Option<seq<string>>, line: string): Option<seq<string>> {
    if line == "" then Some([]) else if Bracketed(line) then json(line) else Some(Parse(line))
  }

  lemma {:induction false} FormatEnds(ts: seq<string>)
    requires ts != [] && forall i | 0 <= i < |ts| :: ts[i] != ""
    ensures Format(ts) != "" && Format(ts)[0] == Quote(ts[0])[0]
    ensures Format(ts)[|Format(ts)| - 1] == Quote(ts[|ts| - 1])[|Quote(ts[|ts| - 1])| - 1]
    decreases |ts|
  {
    if |ts| > 1 {
      FormatEnds(ts[1..]);
      assert ts[1..][|ts[1..]| - 1] == ts[|ts| - 1];
    }
  }

  /** A formatted list is taken for JSON exactly when its first token begins and its last one ends with
      the bracket, both unquoted. */
  lemma BracketedIff(ts: seq<string>)
    requires ts != [] && forall i | 0 <= i < |ts| :: ts[i] != ""
    ensures var first, last := ts[0], ts[|ts| - 1];
            Bracketed(Format(ts)) <==>
            !NeedsQuoting(first) && first[0] == '[' && !NeedsQuoting(last) && last[|last| - 1] == ']'
  {
    FormatEnds(ts);
  }

  /** Any other list is validated to itself exactly when each of its tokens is faithful. */
  lemma ValidatedIffFaithful(json: string -> Option<seq<string>>, ts: seq<string>)
    requires !Bracketed(Format(ts))
    ensures Validate(json, Format(ts)) == Some(ts) <==> forall i | 0 <= i < |ts| :: Faithful(ts[i])
  {
    ComesBackIffFaithful(ts);
    assert Parse("") == [];
  }
}
