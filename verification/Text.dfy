/** Character classes and the string functions shared by the parsers, on ASCII text. */
module Text {
  /** `\s`, and what `str.strip` removes */
  predicate IsSpace(c: char) {
    c == ' ' || 9 <= c as int <= 13 || 28 <= c as int <= 31
  }

  /** `\w` */
  predicate IsWord(c: char) {
    'a' <= c <= 'z' || 'A' <= c <= 'Z' || '0' <= c <= '9' || c == '_'
  }

  function LStrip(s: string): (r: string)
    ensures |r| <= |s|
    ensures r != "" ==> !IsSpace(r[0])
  {
    if s != "" && IsSpace(s[0]) then LStrip(s[1..]) else s
  }

  function RStrip(s: string): (r: string)
    ensures r <= s
    ensures r != "" ==> !IsSpace(r[|r| - 1])
  {
    if s != "" && IsSpace(s[|s| - 1]) then RStrip(s[..|s| - 1]) else s
  }

  function Strip(s: string): (r: string)
    ensures |r| <= |s|
    ensures r != "" ==> !IsSpace(r[0]) && !IsSpace(r[|r| - 1])
  {
    RStrip(LStrip(s))
  }

  /** Text that stripping leaves alone. */
  predicate Trimmed(s: string) {
    s != "" && !IsSpace(s[0]) && !IsSpace(s[|s| - 1])
  }

  lemma StripTrimmed(s: string)
    requires s == "" || Trimmed(s)
    ensures Strip(s) == s && LStrip(s) == s
  {
  }

  lemma StripBlank(s: string)
    requires s == "" || Trimmed(s)
    ensures Strip(" " + s) == s && LStrip(" " + s) == s
  {
    assert (" " + s)[1..] == s;
    assert LStrip(" " + s) == LStrip(s);
    StripTrimmed(s);
  }

  /** Length of the longest prefix of word characters. */
  function WordRun(s: string): (n: nat)
    ensures n <= |s| && (forall i | 0 <= i < n :: IsWord(s[i])) && (n < |s| ==> !IsWord(s[n]))
  {
    if s != "" && IsWord(s[0]) then 1 + WordRun(s[1..]) else 0
  }

  predicate IsBare(c: char) { c != '"' && c != ' ' && c != ',' }

  function BareRun(s: string): (n: nat)
    ensures n <= |s| && (forall i | 0 <= i < n :: IsBare(s[i])) && (n < |s| ==> !IsBare(s[n]))
  {
    if s != "" && IsBare(s[0]) then 1 + BareRun(s[1..]) else 0
  }

  function SpaceRun(s: string): (n: nat)
    ensures n <= |s| && (forall i | 0 <= i < n :: IsSpace(s[i])) && (n < |s| ==> !IsSpace(s[n]))
  {
    if s != "" && IsSpace(s[0]) then 1 + SpaceRun(s[1..]) else 0
  }

  /** Whitespace runs become single spaces. */
  function Collapse(s: string): (r: string)
    ensures |r| <= |s|
    decreases |s|
  {
    if s == "" then ""
    else if IsSpace(s[0]) then " " + Collapse(s[SpaceRun(s)..])
    else [s[0]] + Collapse(s[1..])
  }

  lemma {:induction false} CollapseSpaceless(s: string)
    requires forall i | 0 <= i < |s| :: !IsSpace(s[i])
    ensures Collapse(s) == s
  {
    if s != "" {
      CollapseSpaceless(s[1..]);
    }
  }

  lemma WordIsNotSpace(c: char)
    ensures IsWord(c) ==> !IsSpace(c)
  {
  }

  /** Python's order on strings. */
  predicate Less(a: string, b: string) {
    b != "" && (a == "" || a[0] < b[0] || (a[0] == b[0] && Less(a[1..], b[1..])))
  }

  lemma {:induction false} PrefixIsLess(a: string, b: string)
    requires a < b
    ensures Less(a, b)
  {
    if a != "" {
      PrefixIsLess(a[1..], b[1..]);
    }
  }

  lemma {:induction false} LessIsAsymmetric(a: string, b: string)
    ensures !(Less(a, b) && Less(b, a))
    decreases |a|
  {
    if a != "" && b != "" {
      LessIsAsymmetric(a[1..], b[1..]);
    }
  }

  lemma {:induction false} LessIsTotal(a: string, b: string)
    ensures a == b || Less(a, b) || Less(b, a)
  {
    if a != "" && b != "" && a[0] == b[0] {
      LessIsTotal(a[1..], b[1..]);
      assert a == [a[0]] + a[1..] && b == [b[0]] + b[1..];
    }
  }

  lemma {:induction false} LessIsTransitive(a: string, b: string, c: string)
    requires Less(a, b) && Less(b, c)
    ensures Less(a, c)
  {
    if a != "" && a[0] == b[0] == c[0] {
      LessIsTransitive(a[1..], b[1..], c[1..]);
    }
  }

  /** `sorted(.., reverse=True)` */
  function SortDescending(s: seq<string>): seq<string> {
    if s == [] then [] else InsertDescending(s[0], SortDescending(s[1..]))
  }

  function InsertDescending(x: string, s: seq<string>): seq<string> {
    if s == [] || !Less(x, s[0]) then [x] + s else [s[0]] + InsertDescending(x, s[1..])
  }

  ghost predicate Descending(s: seq<string>) {
    forall i, j | 0 <= i < j < |s| :: !Less(s[i], s[j])
  }

  lemma {:induction false} InsertKeepsDescending(x: string, s: seq<string>)
    requires Descending(s)
    ensures Descending(InsertDescending(x, s))
    ensures multiset(InsertDescending(x, s)) == multiset(s) + multiset{x}
    decreases |s|
  {
    if s == [] {
    } else if !Less(x, s[0]) {
      var r := [x] + s;
      forall j | 1 <= j < |r| ensures !Less(x, r[j]) {
        if Less(x, s[j - 1]) && j > 1 {
          LessIsTotal(s[0], s[j - 1]);
          LessIsTotal(s[0], x);
          if Less(s[0], x) {
            LessIsTransitive(s[0], x, s[j - 1]);
          }
        }
      }
    } else {
      InsertKeepsDescending(x, s[1..]);
      var tail := InsertDescending(x, s[1..]);
      forall j | 0 <= j < |tail| ensures !Less(s[0], tail[j]) {
        assert tail[j] in multiset(tail);
        if tail[j] == x {
          LessIsAsymmetric(x, s[0]);
        } else {
          assert tail[j] in multiset(s[1..]);
          assert tail[j] in s[1..];
        }
      }
      assert s == [s[0]] + s[1..];
    }
  }

  lemma {:induction false} SortedDescending(s: seq<string>)
    ensures Descending(SortDescending(s)) && multiset(SortDescending(s)) == multiset(s)
  {
    if s != [] {
      SortedDescending(s[1..]);
      InsertKeepsDescending(s[0], SortDescending(s[1..]));
      assert s == [s[0]] + s[1..];
    }
  }
}
