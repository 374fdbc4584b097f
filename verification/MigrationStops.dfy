/** A migration stopped inside the statements of one key, on an engine that commits each of them. */
module MigrationStops {
  import opened Options
  import opened Migration

  // ----- Columns that no statement drops

  /** While a column is there and nothing drops it, it stays, and no statement can add it. */
  lemma {:induction false} KeptColumn(e: Engine, t: Table, stmts: seq<Statement>, c: string)
    requires c in t.columns && Drop(c) !in stmts && ApplyAll(e, t, stmts).Some?
    ensures c in ApplyAll(e, t, stmts).value.columns
    ensures forall sql :: Add(c, sql) !in stmts
    decreases |stmts|
  {
    if stmts != [] {
      var u := Apply(e, t, stmts[0]).value;
      assert stmts[0] in stmts;
      assert c in u.columns;
      KeptColumn(e, u, stmts[1..], c);
      assert stmts == [stmts[0]] + stmts[1..];
    }
  }

  /** A column the snapshot does not know survives the turn of a key, which cannot want its name. */
  lemma UnknownKeptByKey(e: Engine, t: Table, d: TableDef, s: Snapshot, key: string, c: string)
    requires !e.sqlite && d.aux.Keys == d.fields.Keys && (key in d.fields || key in s)
    requires c in t.columns && c !in Image(s) && ApplyAll(e, t, KeyStatements(e, key, d, s)).Some?
    ensures c in ApplyAll(e, t, KeyStatements(e, key, d, s)).value.columns
    ensures !(Arrives(key, d, s) && d.fields[key].column == c)
  {
    var stmts := KeyStatements(e, key, d, s);
    if !(Rebuilt(e, key, d, s) && Tmp(key) == c) {
      assert Drop(c) !in stmts by {
        assert key in s ==> s[key].column in Image(s);
      }
      KeptColumn(e, t, stmts, c);
      if Arrives(key, d, s) {
        assert stmts[0] == Add(d.fields[key].column, d.aux[key]) && stmts[0] in stmts;
      }
    }
  }

  /** Nor does a whole run drop it. */
  lemma {:induction false} UnknownKept(e: Engine, t: Table, d: TableDef, s: Snapshot, keys: seq<string>, n: nat,
                                       c: string)
    requires !e.sqlite && Keyed(keys, d, s) && n <= |keys|
    requires c in t.columns && c !in Image(s) && RunKeys(e, t, d, s, keys, n).Some?
    ensures c in RunKeys(e, t, d, s, keys, n).value.columns
    ensures forall j | 0 <= j < n :: !(Arrives(keys[j], d, s) && d.fields[keys[j]].column == c)
  {
    if n > 0 {
      var m := n - 1;
      RunStep(e, t, d, s, keys, m);
      UnknownKept(e, t, d, s, keys, m, c);
      UnknownKeptByKey(e, RunKeys(e, t, d, s, keys, m).value, d, s, keys[m], c);
    }
  }

  /** A run that starts with such a column either fails or ends with it, and no new name is equal to it. */
  lemma UnknownRemains(e: Engine, t: Table, d: TableDef, s: Snapshot, keys: seq<string>, c: string)
    requires !e.sqlite && KeyOrder(keys, d, s) && c in t.columns && c !in Image(s)
    requires RunKeys(e, t, d, s, keys, |keys|).Some?
    ensures c in RunKeys(e, t, d, s, keys, |keys|).value.columns && c !in Image(d.fields)
  {
    UnknownKept(e, t, d, s, keys, |keys|, c);
    forall k | k in d.fields ensures d.fields[k].column != c {
      assert Listed(keys, k);
      var j :| 0 <= j < |keys| && keys[j] == k;
      assert k in s ==> s[k].column in Image(s);
    }
  }

  // ----- What a stop leaves

  /** The snapshot on disk after `m` statements of key `n`: saved with each of them. */
  ghost function SavedSnapshot(e: Engine, d: TableDef, was: Snapshot, keys: seq<string>, n: nat, m: nat): Snapshot
    requires n < |keys|
  {
    SnapshotAt(e, d, was, keys, if m == 0 then n else n + 1)
  }

  lemma PrefixApplies(e: Engine, t: Table, stmts: seq<Statement>, m: nat)
    requires m <= |stmts| && ApplyAll(e, t, stmts).Some?
    ensures ApplyAll(e, t, stmts[..m]).Some?
  {
    assert stmts == stmts[..m] + stmts[m..];
    ApplyAppend(e, t, stmts[..m], stmts[m..]);
  }

  /** The column that a key in progress leaves behind: the old one of a rename, the temporary one of a rebuild. */
  ghost function Leftover(key: string, d: TableDef, was: Snapshot): string
    requires key in was
  {
    if Renamed(key, d, was) then was[key].column else Tmp(key)
  }

  lemma LeftoverThere(e: Engine, u: Table, d: TableDef, was: Snapshot, key: string, m: nat)
    requires !e.sqlite && d.aux.Keys == d.fields.Keys && (key in d.fields || key in was)
    requires 0 < m < |KeyStatements(e, key, d, was)| && ApplyAll(e, u, KeyStatements(e, key, d, was)).Some?
    requires key in was ==> was[key].column in u.columns
    ensures key in was && ApplyAll(e, u, KeyStatements(e, key, d, was)[..m]).Some?
    ensures Leftover(key, d, was) in ApplyAll(e, u, KeyStatements(e, key, d, was)[..m]).value.columns
  {
    var stmts := KeyStatements(e, key, d, was);
    var c := Leftover(key, d, was);
    PrefixApplies(e, u, stmts, m);
    if Renamed(key, d, was) {
      KeptColumn(e, u, stmts[..m], c);
    } else {
      var first := Apply(e, u, stmts[0]).value;
      assert stmts[..m][1..] == stmts[1..m] && c in first.columns;
      KeptColumn(e, first, stmts[1..m], c);
    }
  }

  /** It is none of the columns of the next boundary. */
  lemma LeftoverGone(e: Engine, t: Table, d: TableDef, was: Snapshot, keys: seq<string>, n: nat, u: Table)
    requires !e.sqlite && Keyed(keys, d, was) && Consistent(t, was)
    requires n < |keys| && NoClash(e, t, d, was, keys, n + 1) && Boundary(e, t, d, was, keys, n, u)
    requires Renamed(keys[n], d, was) || Rebuilt(e, keys[n], d, was)
    ensures Leftover(keys[n], d, was) !in Effect(e, t, d, was, keys[n], u.columns)
    ensures Leftover(keys[n], d, was) !in Extras(t, was)
  {
    var c := Leftover(keys[n], d, was);
    assert !Clash(e, t, d, was, keys, n);
    if Renamed(keys[n], d, was) {
      assert c in Image(was);
    } else {
      assert !Occupied(e, t, d, was, keys, n, c);
      assert IsBefore(was, keys[n], was[keys[n]].column);
      assert Occupied(e, t, d, was, keys, n, was[keys[n]].column);
    }
  }

  /** So neither the snapshot after the key knows it nor did the old one fail to. */
  lemma LeftoverUnknown(e: Engine, t: Table, d: TableDef, was: Snapshot, keys: seq<string>, n: nat, u: Table)
    requires !e.sqlite && Keyed(keys, d, was) && Consistent(t, was) && Covers(keys, was.Keys)
    requires n < |keys| && NoClash(e, t, d, was, keys, n + 1) && Boundary(e, t, d, was, keys, n, u)
    requires Renamed(keys[n], d, was) || Rebuilt(e, keys[n], d, was)
    ensures Leftover(keys[n], d, was) !in Extras(t, was)
    ensures Leftover(keys[n], d, was) !in Image(SnapshotAt(e, d, was, keys, n + 1))
  {
    var v := Table(t.rows, Effect(e, t, d, was, keys[n], u.columns));
    LeftoverGone(e, t, d, was, keys, n, u);
    BoundaryStep(e, t, d, was, keys, n, u);
    BoundaryConsistent(e, t, d, was, keys, n + 1, v);
    KnownIsThere(v, SnapshotAt(e, d, was, keys, n + 1), Leftover(keys[n], d, was));
  }

  lemma KnownIsThere(t: Table, s: Snapshot, c: string)
    requires Consistent(t, s) && c !in t.columns
    ensures c !in Image(s)
  {
  }

  /** The table a stop leaves. */
  lemma StopReached(e: Engine, t: Table, d: TableDef, was: Snapshot, keys: seq<string>, n: nat, m: nat)
    requires !e.sqlite && KeyOrder(keys, d, was) && Consistent(t, was) && NoClash(e, t, d, was, keys, |keys|)
    requires n < |keys| && m <= |KeyStatements(e, keys[n], d, was)|
    ensures RunKeys(e, t, d, was, keys, n).Some?
    ensures var u := RunKeys(e, t, d, was, keys, n).value;
            && Boundary(e, t, d, was, keys, n, u)
            && ApplyAll(e, u, KeyStatements(e, keys[n], d, was)).Some?
            && ApplyAll(e, u, KeyStatements(e, keys[n], d, was)[..m]).Some?
  {
    AllKeysListed(keys, d, was);
    ApplicableIffNoClash(e, t, d, was, keys, n);
    var u := RunKeys(e, t, d, was, keys, n).value;
    BoundaryStep(e, t, d, was, keys, n, u);
    PrefixApplies(e, u, KeyStatements(e, keys[n], d, was), m);
  }

  /** Stopped after `m` statements of key `n` and defined again, the migration reaches the table of the
      uninterrupted run exactly when it stopped before the first or after the last statement of the
      key. The snapshot is the new definition either way. */
  lemma StopInsideKey(e: Engine, t: Table, d: TableDef, was: Snapshot, keys: seq<string>, n: nat, m: nat,
                      again: seq<string>)
    requires !e.sqlite && KeyOrder(keys, d, was) && Consistent(t, was) && NoClash(e, t, d, was, keys, |keys|)
    requires n < |keys| && m <= |KeyStatements(e, keys[n], d, was)|
    requires KeyOrder(again, d, SavedSnapshot(e, d, was, keys, n, m))
    ensures RunKeys(e, t, d, was, keys, n).Some?
    ensures ApplyAll(e, RunKeys(e, t, d, was, keys, n).value, KeyStatements(e, keys[n], d, was)[..m]).Some?
    ensures var stopped := ApplyAll(e, RunKeys(e, t, d, was, keys, n).value,
            KeyStatements(e, keys[n], d, was)[..m]).value;
            var s := SavedSnapshot(e, d, was, keys, n, m);
            && (RunKeys(e, stopped, d, s, again, |again|) == RunKeys(e, t, d, was, keys, |keys|)
                <==> m == 0 || m == |KeyStatements(e, keys[n], d, was)|)
            && SnapshotAt(e, d, s, again, |again|) == d.fields
  {
    StopReached(e, t, d, was, keys, n, m);
    var stmts := KeyStatements(e, keys[n], d, was);
    var u := RunKeys(e, t, d, was, keys, n).value;
    if m == 0 {
      StopBefore(e, t, d, was, keys, n, again, u);
    } else if m == |stmts| {
      assert stmts[..m] == stmts;
      StopAfter(e, t, d, was, keys, n, again, ApplyAll(e, u, stmts).value);
    } else {
      StopStrands(e, t, d, was, keys, n, m, again);
    }
    AllKeysListed(again, d, SavedSnapshot(e, d, was, keys, n, m));
    SnapshotAtEnd(e, d, SavedSnapshot(e, d, was, keys, n, m), again);
  }

  lemma StopBefore(e: Engine, t: Table, d: TableDef, was: Snapshot, keys: seq<string>, n: nat, again: seq<string>,
                   u: Table)
    requires !e.sqlite && KeyOrder(keys, d, was) && Consistent(t, was) && NoClash(e, t, d, was, keys, |keys|)
    requires n < |keys| && KeyOrder(again, d, SnapshotAt(e, d, was, keys, n))
    requires RunKeys(e, t, d, was, keys, n) == Some(u)
    ensures ApplyAll(e, u, KeyStatements(e, keys[n], d, was)[..0]) == Some(u)
    ensures RunKeys(e, u, d, SnapshotAt(e, d, was, keys, n), again, |again|) == RunKeys(e, t, d, was, keys, |keys|)
  {
    StopAndResume(e, t, d, was, keys, n, again);
  }

  lemma StopAfter(e: Engine, t: Table, d: TableDef, was: Snapshot, keys: seq<string>, n: nat, again: seq<string>,
                  v: Table)
    requires !e.sqlite && KeyOrder(keys, d, was) && Consistent(t, was) && NoClash(e, t, d, was, keys, |keys|)
    requires n < |keys| && KeyOrder(again, d, SnapshotAt(e, d, was, keys, n + 1))
    requires RunKeys(e, t, d, was, keys, n).Some?
    requires ApplyAll(e, RunKeys(e, t, d, was, keys, n).value, KeyStatements(e, keys[n], d, was)) == Some(v)
    ensures RunKeys(e, v, d, SnapshotAt(e, d, was, keys, n + 1), again, |again|) == RunKeys(e, t, d, was, keys, |keys|)
  {
    RunStep(e, t, d, was, keys, n);
    StopAndResume(e, t, d, was, keys, n + 1, again);
  }

  /** Anywhere in between, the column left behind stays for good or stops the second run. */
  lemma StopStrands(e: Engine, t: Table, d: TableDef, was: Snapshot, keys: seq<string>, n: nat, m: nat,
                    again: seq<string>)
    requires !e.sqlite && KeyOrder(keys, d, was) && Consistent(t, was) && NoClash(e, t, d, was, keys, |keys|)
    requires n < |keys| && 0 < m < |KeyStatements(e, keys[n], d, was)|
    requires KeyOrder(again, d, SnapshotAt(e, d, was, keys, n + 1))
    requires RunKeys(e, t, d, was, keys, n).Some?
    requires ApplyAll(e, RunKeys(e, t, d, was, keys, n).value, KeyStatements(e, keys[n], d, was)[..m]).Some?
    ensures var stopped := ApplyAll(e, RunKeys(e, t, d, was, keys, n).value,
            KeyStatements(e, keys[n], d, was)[..m]).value;
            RunKeys(e, stopped, d, SnapshotAt(e, d, was, keys, n + 1), again, |again|)
            != RunKeys(e, t, d, was, keys, |keys|)
  {
    StopReached(e, t, d, was, keys, n, m);
    AllKeysListed(keys, d, was);
    var u := RunKeys(e, t, d, was, keys, n).value;
    assert keys[n] in was ==> Untouched(t, was[keys[n]].column, u.columns);
    LeftoverThere(e, u, d, was, keys[n], m);
    LeftoverUnknown(e, t, d, was, keys, n, u);
    var stopped := ApplyAll(e, u, KeyStatements(e, keys[n], d, was)[..m]).value;
    var final := FinalTable(e, t, d, was, keys);
    if RunKeys(e, stopped, d, SnapshotAt(e, d, was, keys, n + 1), again, |again|).Some? {
      UnknownRemains(e, stopped, d, SnapshotAt(e, d, was, keys, n + 1), again, Leftover(keys[n], d, was));
    }
  }
}
