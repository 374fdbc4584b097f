/** `Rows.find` and `Rows.exclude`: filtering a result set, by copy and in place. */
module RowSets {
  import opened Options

  function Filter<T>(s: seq<T>, f: T -> bool): seq<T> {
    if s == [] then []
    else Filter(s[..|s| - 1], f) + if f(s[|s| - 1]) then [s[|s| - 1]] else []
  }

  function Negation<T>(f: T -> bool): T -> bool {
    x => !f(x)
  }

  /** Where the matches given back end: a limit that is not positive is never met. */
  function End(matches: nat, b: int): (r: nat)
    ensures r <= matches
  {
    if 0 < b < matches then b else matches
  }

  /** The matches from number `a` on, up to the limit `b`. */
  function Window<T>(matches: seq<T>, a: int, b: int): seq<T> {
    var first := if a < 0 then 0 else a;
    if first < End(|matches|, b) then matches[first..End(|matches|, b)] else []
  }

  class Rows<T> {
    var records: seq<T>

    method Find(f: T -> bool, limitby: Option<(int, int)>) returns (found: seq<T>)
      ensures limitby.None? ==> found == Filter(records, f)
      ensures limitby.Some? ==> found == Window(Filter(records, f), limitby.value.0, limitby.value.1)
    {
      if records == [] {
        return [];
      }
      var (a, b) := if limitby.Some? then limitby.value else (0, |records|);
      found := [];
      var k := 0;
      WholeWindow(records, f);
      for i := 0 to |records|
        invariant k == |Filter(records[..i], f)| && (0 < b ==> k < b)
        invariant found == Window(Filter(records[..i], f), a, b)
      {
        FindGrows(records, f, i, a, b);
        if f(records[i]) {
          if a <= k {
            found := found + [records[i]];
          }
          k := k + 1;
          if k == b {
            FindStops(records, f, i + 1, a, b);
            return;
          }
        }
      }
      assert records[..|records|] == records;
    }

    method Exclude(f: T -> bool) returns (removed: seq<T>)
      modifies this
      ensures removed == Filter(old(records), f)
      ensures records == Filter(old(records), Negation(f))
    {
      removed := [];
      if records == [] {
        return;
      }
      ghost var all, seen := records, 0;
      var i := 0;
      while i < |records|
        invariant Looked(all, f, seen, records, removed, i)
        decreases |all| - seen
      {
        var row := records[i];
        LookedOneMore(all, f, seen, records, removed, i);
        if f(row) {
          removed := removed + [records[i]];
          records := records[..i] + records[i + 1..];
        } else {
          i := i + 1;
        }
        seen := seen + 1;
      }
      assert all[..seen] == all;
    }
  }

  /** `exclude` after the first `seen` rows: those kept stand before number `i`, the rest behind. */
  ghost predicate Looked<T>(all: seq<T>, f: T -> bool, seen: nat, records: seq<T>, removed: seq<T>, i: nat) {
    && seen <= |all| && i == |Filter(all[..seen], Negation(f))|
    && records == Filter(all[..seen], Negation(f)) + all[seen..]
    && removed == Filter(all[..seen], f)
  }

  lemma LookedOneMore<T>(all: seq<T>, f: T -> bool, seen: nat, records: seq<T>, removed: seq<T>, i: nat)
    requires Looked(all, f, seen, records, removed, i) && i < |records|
    ensures seen < |all|
    ensures f(records[i]) ==>
              Looked(all, f, seen + 1, records[..i] + records[i + 1..], removed + [records[i]], i)
    ensures !f(records[i]) ==> Looked(all, f, seen + 1, records, removed, i + 1)
  {
    FilterSplits(all, f, seen);
    KeptThenRest(Filter(all[..seen], Negation(f)), all, seen);
  }

  lemma {:induction false} FilterLength<T>(s: seq<T>, f: T -> bool)
    ensures |Filter(s, f)| <= |s|
    decreases |s|
  {
    if s != [] {
      FilterLength(s[..|s| - 1], f);
    }
  }

  lemma {:induction false} FilterPrefix<T>(s: seq<T>, f: T -> bool, n: nat)
    requires n <= |s|
    ensures Filter(s[..n], f) <= Filter(s, f)
    decreases |s|
  {
    if n < |s| {
      assert s[..|s| - 1][..n] == s[..n];
      FilterPrefix(s[..|s| - 1], f, n);
    } else {
      assert s[..n] == s;
    }
  }

  lemma FilterGrows<T>(s: seq<T>, f: T -> bool, n: nat)
    requires n < |s|
    ensures Filter(s[..n + 1], f) == Filter(s[..n], f) + if f(s[n]) then [s[n]] else []
  {
    assert s[..n + 1][..n] == s[..n];
  }

  lemma FilterSplits<T>(s: seq<T>, f: T -> bool, n: nat)
    requires n < |s|
    ensures f(s[n]) ==> Filter(s[..n + 1], f) == Filter(s[..n], f) + [s[n]]
                        && Filter(s[..n + 1], Negation(f)) == Filter(s[..n], Negation(f))
    ensures !f(s[n]) ==> Filter(s[..n + 1], f) == Filter(s[..n], f)
                         && Filter(s[..n + 1], Negation(f)) == Filter(s[..n], Negation(f)) + [s[n]]
  {
    FilterGrows(s, f, n);
    FilterGrows(s, Negation(f), n);
  }

  /** The row looked at is the first of those not looked at yet. */
  lemma KeptThenRest<T>(kept: seq<T>, all: seq<T>, seen: nat)
    requires seen < |all|
    ensures var records := kept + all[seen..];
            && records[|kept|] == all[seen]
            && records[..|kept|] + records[|kept| + 1..] == kept + all[seen + 1..]
            && records == kept + [all[seen]] + all[seen + 1..]
  {
  }

  lemma WindowGrows<T>(matches: seq<T>, row: T, a: int, b: int)
    requires 0 < b ==> |matches| < b
    ensures Window(matches + [row], a, b) == Window(matches, a, b) + if a <= |matches| then [row] else []
  {
  }

  lemma FindGrows<T>(s: seq<T>, f: T -> bool, n: nat, a: int, b: int)
    requires n < |s| && (0 < b ==> |Filter(s[..n], f)| < b)
    ensures |Filter(s[..n + 1], f)| == |Filter(s[..n], f)| + if f(s[n]) then 1 else 0
    ensures Window(Filter(s[..n + 1], f), a, b)
            == Window(Filter(s[..n], f), a, b) + if f(s[n]) && a <= |Filter(s[..n], f)| then [s[n]] else []
  {
    FilterGrows(s, f, n);
    WindowGrows(Filter(s[..n], f), s[n], a, b);
    assert Filter(s[..n], f) + [] == Filter(s[..n], f);
  }

  lemma FindStops<T>(s: seq<T>, f: T -> bool, n: nat, a: int, b: int)
    requires n <= |s| && |Filter(s[..n], f)| == b > 0
    ensures Window(Filter(s, f), a, b) == Window(Filter(s[..n], f), a, b)
  {
    FilterPrefix(s, f, n);
    WindowIsMet(Filter(s, f), Filter(s[..n], f), a, b);
  }

  lemma WholeWindow<T>(s: seq<T>, f: T -> bool)
    ensures Window(Filter(s, f), 0, |s|) == Filter(s, f)
  {
    FilterLength(s, f);
  }

  lemma WindowIsMet<T>(all: seq<T>, some: seq<T>, a: int, b: int)
    requires some <= all && |some| == b > 0
    ensures Window(all, a, b) == Window(some, a, b)
  {
  }

  /** `picked` are the rows at the places `at`, in order. */
  ghost predicate PickedAt<T>(s: seq<T>, picked: seq<T>, at: seq<nat>) {
    && |at| == |picked|
    && (forall i | 0 <= i < |at| :: at[i] < |s| && picked[i] == s[at[i]])
    && forall i, j | 0 <= i < j < |at| :: at[i] < at[j]
  }

  lemma PickedMore<T>(s: seq<T>, picked: seq<T>, at: seq<nat>, x: T)
    requires PickedAt(s, picked, at)
    ensures PickedAt(s + [x], picked + [x], at + [|s|]) && PickedAt(s + [x], picked, at) && |s| !in at
  {
  }

  /** The rows picked are exactly those that match, in their order; `at` is where they stood. */
  lemma {:induction false} FilterPlaces<T>(s: seq<T>, f: T -> bool) returns (at: seq<nat>)
    ensures PickedAt(s, Filter(s, f), at)
    ensures forall k | 0 <= k < |s| :: k in at <==> f(s[k])
    decreases |s|
  {
    if s == [] {
      at := [];
    } else {
      var n := |s| - 1;
      var most, x := s[..n], s[n];
      at := FilterPlaces(most, f);
      PickedMore(most, Filter(most, f), at, x);
      assert s == most + [x];
      assert Filter(most, f) + [] == Filter(most, f);
      if f(x) {
        at := at + [n];
      }
    }
  }

  /** A positive upper limit is the number of the match to stop before; one that is not is no limit. */
  lemma WindowMeans<T>(matches: seq<T>, a: int, b: int)
    ensures var first := if a < 0 then 0 else a;
            var last := if 0 < b < |matches| then b else |matches|;
            Window(matches, a, b) == if first < last then matches[first..last] else []
  {
  }

  /** What `exclude` removes and what it leaves are together the rows it was given. */
  lemma {:induction false} ExcludeConserves<T>(s: seq<T>, f: T -> bool)
    ensures multiset(Filter(s, f)) + multiset(Filter(s, Negation(f))) == multiset(s)
    decreases |s|
  {
    if s != [] {
      var n := |s| - 1;
      ExcludeConserves(s[..n], f);
      assert s == s[..n] + [s[n]];
      if f(s[n]) {
        assert Filter(s, Negation(f)) == Filter(s[..n], Negation(f));
        assert Filter(s, f) == Filter(s[..n], f) + [s[n]];
      } else {
        assert Filter(s, f) == Filter(s[..n], f);
        assert Filter(s, Negation(f)) == Filter(s[..n], Negation(f)) + [s[n]];
      }
    }
  }

  /** Nothing `exclude` leaves is found again. */
  lemma {:induction false} NothingLeftToFind<T>(s: seq<T>, f: T -> bool)
    ensures Filter(Filter(s, Negation(f)), f) == []
    decreases |s|
  {
    if s != [] {
      var n := |s| - 1;
      NothingLeftToFind(s[..n], f);
      var kept := Filter(s[..n], Negation(f));
      assert (kept + [s[n]])[..|kept|] == kept && kept + [] == kept;
    }
  }

  /** Each row given back matches, and its place among all the matches is where the limits put it. */
  lemma WindowPlaces<T>(matches: seq<T>, a: nat, b: nat)
    requires a < b
    ensures |Window(matches, a, b)| <= b - a
    ensures forall i | 0 <= i < |Window(matches, a, b)| :: Window(matches, a, b)[i] == matches[a + i]
    ensures |Window(matches, a, b)| == b - a || |matches| <= a + |Window(matches, a, b)|
  {
  }

  /** The matches with the numbers from `a` up to but not including `b`. */
  function Between<T>(matches: seq<T>, a: int, b: int): seq<T> {
    var first, last := if a < 0 then 0 else a, if b < |matches| then b else |matches|;
    if first < last then matches[first..last] else []
  }

  /** The limits are honoured unless the upper one is not positive and there are matches past the lower
      one: it is tested after a match has been counted, so it is never met. */
  lemma LimitsHonouredIff<T>(matches: seq<T>, a: int, b: int)
    ensures Window(matches, a, b) == Between(matches, a, b) <==> b > 0 || |matches| <= a || matches == []
  {
    var first := if a < 0 then 0 else a;
    assert b <= 0 ==> |Window(matches, a, b)| == if first < |matches| then |matches| - first else 0;
  }
}
