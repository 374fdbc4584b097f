/** `migrate_table` as it runs: statements executed and committed one by one, and the snapshot file
    rewritten beside the database.
  */
module Migrator {
  import opened Options
  import opened Migration

  /** Each committed table and snapshot is that of its key boundary. */
  ghost predicate Traced(e: Engine, t: Table, d: TableDef, was: Snapshot, keys: seq<string>,
                         trace: seq<(Table, Snapshot)>)
    requires Keyed(keys, d, was)
  {
    && |trace| <= |keys| + 1
    && forall i {:trigger trace[i]} | 0 <= i < |trace| ::
         RunKeys(e, t, d, was, keys, i) == Some(trace[i].0) && trace[i].1 == SnapshotAt(e, d, was, keys, i)
  }

  /** What a stop after `m` statements of a key leaves on an engine that commits each of them. */
  ghost predicate IsStop(e: Engine, t: Table, query: seq<Statement>, was: Snapshot, current: Snapshot, m: nat,
                         stop: (Table, Snapshot))
    requires m <= |query|
  {
    ApplyAll(e, t, query[..m]) == Some(stop.0) && stop.1 == if m == 0 then was else current
  }

  // ----- The snapshot file on an engine that does not commit each statement

  ghost predicate ChangedBy(e: Engine, d: TableDef, was: Snapshot, keys: seq<string>, n: nat)
    requires n <= |keys|
  {
    exists i :: 0 <= i < n && KeyChanges(e, keys[i], d, was)
  }

  /** The turn before boundary `n` emits nothing and saves the snapshot. */
  ghost predicate SavesAt(e: Engine, d: TableDef, was: Snapshot, keys: seq<string>, n: nat)
    requires n <= |keys| && Keyed(keys, d, was)
  {
    n > 0 && KeyStatements(e, keys[n - 1], d, was) == [] && ChangedBy(e, d, was, keys, n)
  }

  /** The last boundary up to `n` whose snapshot is in the file, 0 if none has been saved. */
  ghost function Saved(e: Engine, d: TableDef, was: Snapshot, keys: seq<string>, n: nat): (m: nat)
    requires n <= |keys| && Keyed(keys, d, was)
    ensures m <= n && (m > 0 ==> SavesAt(e, d, was, keys, m))
    ensures forall k | m < k <= n :: !SavesAt(e, d, was, keys, k)
  {
    if n == 0 || SavesAt(e, d, was, keys, n) then n else Saved(e, d, was, keys, n - 1)
  }

  /** The turn of `key` makes a different snapshot. */
  ghost predicate KeyMoves(e: Engine, key: string, d: TableDef, was: Snapshot) {
    if key in d.fields then key !in was || was[key] != d.fields[key] else !e.sqlite && key in was
  }

  /** The trace has one entry per boundary up to `n`. */
  ghost predicate TraceTo(e: Engine, t: Table, d: TableDef, was: Snapshot, keys: seq<string>, n: nat,
                          trace: seq<(Table, Snapshot)>, fake: bool)
    requires Keyed(keys, d, was)
  {
    e.commitOnAlter ==> |trace| == n + 1 && (!fake ==> Traced(e, t, d, was, keys, trace))
  }

  /** What this connection sees, what survives a stop, and the snapshot file. */
  datatype Disk = Disk(working: Table, committed: Table, snapshot: Snapshot)

  /** Where the loop stands after `n` keys. */
  ghost predicate Reached(e: Engine, start: Table, d: TableDef, was: Snapshot, keys: seq<string>, n: nat, now: Disk,
                          current: Snapshot, change: bool, query: seq<Statement>, fake: bool)
    requires n <= |keys| && Keyed(keys, d, was)
  {
    && current == SnapshotAt(e, d, was, keys, n)
    && (change <==> ChangedBy(e, d, was, keys, n))
    && (!change ==> current == was == now.snapshot && query == [])
    && (fake ==> now.working == start && now.committed == start)
    && (!fake ==> RunKeys(e, start, d, was, keys, n) == Some(now.working))
    && (!fake && (e.commitOnAlter || !change) ==> now.committed == now.working)
    && (!e.commitOnAlter ==> now.committed == start)
    && now.snapshot == SnapshotAt(e, d, was, keys, if e.commitOnAlter then n else Saved(e, d, was, keys, n))
  }

  /** The run stops at key `stop`: `done` of its statements went through and the next one is rejected. */
  ghost predicate StopsAt(e: Engine, start: Table, d: TableDef, was: Snapshot, keys: seq<string>, stop: nat, done: nat,
                          now: Table)
    requires Keyed(keys, d, was)
  {
    && stop < |keys| && RunKeys(e, start, d, was, keys, stop).Some?
    && Fails(e, RunKeys(e, start, d, was, keys, stop).value, KeyStatements(e, keys[stop], d, was), done, now)
  }

  /** What a run leaves that stops there. With `commit_on_alter_table` every statement that went through is
      committed, and the snapshot calls the key done as soon as one has; without it nothing is committed,
      and the snapshot is the last one saved. */
  ghost predicate Rejected(e: Engine, start: Table, d: TableDef, was: Snapshot, keys: seq<string>, stop: nat, done: nat,
                           now: Disk)
    requires Keyed(keys, d, was)
  {
    && StopsAt(e, start, d, was, keys, stop, done, now.working)
    && now.committed == (if e.commitOnAlter then now.working else start)
    && now.snapshot == SnapshotAt(e, d, was, keys, if !e.commitOnAlter then Saved(e, d, was, keys, stop)
                                                   else if done == 0 then stop else stop + 1)
  }

  /** Statement `done` is the first that is rejected. */
  ghost predicate Fails(e: Engine, t: Table, query: seq<Statement>, done: nat, now: Table) {
    && done < |query|
    && ApplyAll(e, t, query[..done]) == Some(now)
    && ApplyAll(e, t, query[..done + 1]) == None
  }

  /** From one state to the next by the statements of a key that all go through. */
  ghost predicate KeyRan(e: Engine, before: Disk, query: seq<Statement>, next: Snapshot, change: bool, fake: bool,
                         now: Disk) {
    && (fake ==> now.working == before.working && now.committed == before.committed)
    && (!fake ==> ApplyAll(e, before.working, query) == Some(now.working))
    && (!fake ==> now.committed == if e.commitOnAlter && query != [] then now.working else before.committed)
    && now.snapshot == if (if query != [] then e.commitOnAlter else change) then next else before.snapshot
  }

  /** The same when one of them is rejected. */
  ghost predicate KeyFailed(e: Engine, before: Disk, query: seq<Statement>, next: Snapshot, done: nat, now: Disk) {
    && Fails(e, before.working, query, done, now.working)
    && now.committed == (if e.commitOnAlter && done > 0 then now.working else before.committed)
    && now.snapshot == if e.commitOnAlter && done > 0 then next else before.snapshot
  }

  /** A key that changes nothing leaves the snapshot alone. */
  lemma NoChange(e: Engine, d: TableDef, was: Snapshot, keys: seq<string>, n: nat)
    requires n < |keys| && Keyed(keys, d, was) && SnapshotAt(e, d, was, keys, n) == was
    requires !KeyChanges(e, keys[n], d, was)
    ensures SnapshotAt(e, d, was, keys, n + 1) == was
  {
  }

  lemma ReachNext(e: Engine, start: Table, d: TableDef, was: Snapshot, keys: seq<string>, n: nat, before: Disk,
                  current: Snapshot, changed: bool, last: seq<Statement>, fake: bool, now: Disk)
    requires n < |keys| && Keyed(keys, d, was)
    requires Reached(e, start, d, was, keys, n, before, current, changed, last, fake)
    requires KeyRan(e, before, KeyStatements(e, keys[n], d, was), KeySnapshot(e, keys[n], d, current),
                    changed || KeyChanges(e, keys[n], d, was), fake, now)
    ensures Reached(e, start, d, was, keys, n + 1, now, KeySnapshot(e, keys[n], d, current),
                    changed || KeyChanges(e, keys[n], d, was), KeyStatements(e, keys[n], d, was), fake)
  {
    var change, query := changed || KeyChanges(e, keys[n], d, was), KeyStatements(e, keys[n], d, was);
    KeyRun(e, start, d, was, keys, n, before.working, fake);
    ChangedNext(e, d, was, keys, n);
    if !change {
      NoChange(e, d, was, keys, n);
    }
    SavedNext(e, d, was, keys, n, change, before.snapshot, now.snapshot);
  }

  /** What the turn of key `n` does to the snapshot file. */
  lemma SavedNext(e: Engine, d: TableDef, was: Snapshot, keys: seq<string>, n: nat, change: bool, before: Snapshot,
                  now: Snapshot)
    requires n < |keys| && Keyed(keys, d, was) && change == ChangedBy(e, d, was, keys, n + 1)
    requires before == SnapshotAt(e, d, was, keys, if e.commitOnAlter then n else Saved(e, d, was, keys, n))
    requires !change ==> SnapshotAt(e, d, was, keys, n + 1) == before
    requires now == if (if KeyStatements(e, keys[n], d, was) != [] then e.commitOnAlter else change)
                    then SnapshotAt(e, d, was, keys, n + 1) else before
    ensures now == SnapshotAt(e, d, was, keys, if e.commitOnAlter then n + 1 else Saved(e, d, was, keys, n + 1))
  {
  }

  lemma ChangedNext(e: Engine, d: TableDef, was: Snapshot, keys: seq<string>, n: nat)
    requires n < |keys|
    ensures ChangedBy(e, d, was, keys, n + 1) <==> ChangedBy(e, d, was, keys, n) || KeyChanges(e, keys[n], d, was)
  {
  }

  lemma RejectNext(e: Engine, start: Table, d: TableDef, was: Snapshot, keys: seq<string>, n: nat, before: Disk,
                   done: nat, now: Disk)
    requires n < |keys| && Keyed(keys, d, was)
    requires RunKeys(e, start, d, was, keys, n) == Some(before.working)
    requires before.committed == if e.commitOnAlter then before.working else start
    requires before.snapshot == SnapshotAt(e, d, was, keys, if e.commitOnAlter then n else Saved(e, d, was, keys, n))
    requires KeyFailed(e, before, KeyStatements(e, keys[n], d, was), SnapshotAt(e, d, was, keys, n + 1), done, now)
    ensures Rejected(e, start, d, was, keys, n, done, now)
    ensures RunKeys(e, start, d, was, keys, |keys|) == None
  {
    StopNext(e, start, d, was, keys, n, before.working, done, now.working);
  }

  lemma StopNext(e: Engine, start: Table, d: TableDef, was: Snapshot, keys: seq<string>, n: nat, u: Table, done: nat,
                 now: Table)
    requires n < |keys| && Keyed(keys, d, was) && RunKeys(e, start, d, was, keys, n) == Some(u)
    requires Fails(e, u, KeyStatements(e, keys[n], d, was), done, now)
    ensures StopsAt(e, start, d, was, keys, n, done, now) && (done == 0 ==> now == u)
    ensures RunKeys(e, start, d, was, keys, |keys|) == None
  {
    FailsWhole(e, u, KeyStatements(e, keys[n], d, was), done, now);
    RunStep(e, start, d, was, keys, n);
    RunFailed(e, start, d, was, keys, n + 1);
  }

  lemma FailsWhole(e: Engine, t: Table, query: seq<Statement>, done: nat, now: Table)
    requires Fails(e, t, query, done, now)
    ensures ApplyAll(e, t, query) == None && (done == 0 ==> now == t)
  {
    assert query == query[..done + 1] + query[done + 1..];
    ApplyAppend(e, t, query[..done + 1], query[done + 1..]);
    assert query[..0] == [];
  }

  // ----- When a rejected run leaves a snapshot ahead of the database

  lemma MovesIff(e: Engine, d: TableDef, was: Snapshot, keys: seq<string>, n: nat)
    requires n <= |keys| && Keyed(keys, d, was)
    ensures SnapshotAt(e, d, was, keys, n) != was <==> exists i :: 0 <= i < n && KeyMoves(e, keys[i], d, was)
  {
    var s := SnapshotAt(e, d, was, keys, n);
    SnapshotAtBoundary(e, d, was, keys, n);
    forall i | 0 <= i < n && KeyMoves(e, keys[i], d, was) ensures s != was {
      assert keys[..n][i] in keys[..n];
      assert SnapshotFor(e, d, was, keys[i], keys[i] in keys[..n], s);
    }
    if forall i | 0 <= i < n :: !KeyMoves(e, keys[i], d, was) {
      forall k ensures (k in s <==> k in was) && (k in s ==> s[k] == was[k]) {
        assert SnapshotFor(e, d, was, k, k in keys[..n], s);
      }
    }
  }

  /** Without `commit_on_alter_table` a rejected run commits nothing; it leaves a snapshot other than the one
      it found exactly when, before the key it stopped at, some key had changed the snapshot and that key or
      a later one had nothing to execute. */
  lemma RejectedSnapshotIff(e: Engine, start: Table, d: TableDef, was: Snapshot, keys: seq<string>, stop: nat,
                            done: nat, now: Disk)
    requires Keyed(keys, d, was) && !e.commitOnAlter
    requires Rejected(e, start, d, was, keys, stop, done, now)
    ensures now.committed == start
    ensures now.snapshot != was
            <==> exists i, j ::
                   0 <= i <= j < stop && KeyMoves(e, keys[i], d, was) && KeyStatements(e, keys[j], d, was) == []
  {
    var m := Saved(e, d, was, keys, stop);
    MovesIff(e, d, was, keys, m);
    forall i, j | 0 <= i <= j < stop && KeyMoves(e, keys[i], d, was) && KeyStatements(e, keys[j], d, was) == []
      ensures i < m
    {
      assert KeyChanges(e, keys[i], d, was);
      assert SavesAt(e, d, was, keys, j + 1);
    }
  }

  /** Such a run: `a` is added, `b` is left as it is, `c` is rejected because a column of its name is there. */
  lemma SnapshotOutrunsCommit(e: Engine, t: Table, a: FieldDef, b: FieldDef, c: FieldDef, d: TableDef)
    requires !e.sqlite && !e.commitOnAlter
    requires a.column !in t.columns && c.column in t.columns
    requires d.fields == map["a" := a, "b" := b, "c" := c] && d.order == ["a", "b", "c"] && ValidDef(d)
    ensures KeyOrder(d.order, d, map["b" := b]) && Keyed(d.order, d, map["b" := b])
    ensures exists now :: StopsAt(e, t, d, map["b" := b], d.order, 2, 0, now)
    ensures forall now | Rejected(e, t, d, map["b" := b], d.order, 2, 0, now) ::
              now.committed == t && now.snapshot == map["a" := a, "b" := b]
  {
    var was, keys := map["b" := b], d.order;
    assert d.fields.Keys + was.Keys == d.fields.Keys;
    assert keys[0] == "a" && keys[1] == "b" && keys[2] == "c";
    var added := t.(columns := t.columns[a.column := Column(d.aux["a"], seq(t.rows, _ => e.blank(d.aux["a"])))]);
    assert RunKeys(e, t, d, was, keys, 0) == Some(t);
    OneAdd(e, t, a.column, d.aux["a"]);
    assert RunKeys(e, t, d, was, keys, 1) == Some(added);
    assert RunKeys(e, t, d, was, keys, 2) == Some(added);
    OneAdd(e, added, c.column, d.aux["c"]);
    assert StopsAt(e, t, d, was, keys, 2, 0, added);
    assert KeyChanges(e, keys[0], d, was);
    assert SavesAt(e, d, was, keys, 2);
    assert SnapshotAt(e, d, was, keys, 0) == was;
    assert SnapshotAt(e, d, was, keys, 1) == was["a" := a];
    assert SnapshotAt(e, d, was, keys, 2) == map["a" := a, "b" := b];
  }

  lemma OneAdd(e: Engine, t: Table, name: string, sql: string)
    ensures ApplyAll(e, t, [Add(name, sql)]) == Apply(e, t, Add(name, sql))
    ensures [Add(name, sql)][..0] == [] && [Add(name, sql)][..1] == [Add(name, sql)]
  {
    assert [Add(name, sql)][1..] == [];
  }

  // ----- What a migration leaves, key by key

  /** A new key's column is blank; a key whose column keeps its name and type has its values, and any other
      has each value cast once, or twice under the same name. */
  ghost predicate Carried(e: Engine, before: Table, sql: string, f: FieldDef, was: Option<FieldDef>, now: Column) {
    match was
    case None => now.sql == sql && now.cells == seq(before.rows, _ => e.blank(sql))
    case Some(w) =>
      && w.column in before.columns
      && var held := before.columns[w.column];
         if f.column == w.column && (f.sql == w.sql || f.pinned) then now == held
         else now.sql == sql && |now.cells| == |held.cells|
              && forall i | 0 <= i < |held.cells| ::
                   now.cells[i] == if f.column != w.column then e.convert(sql, held.cells[i])
                                   else e.convert(sql, e.convert(sql, held.cells[i]))
  }

  function EntryOf(s: Snapshot, key: string): Option<FieldDef> { if key in s then Some(s[key]) else None }

  /** The columns and the snapshot are those of the new definition, each key's values carried over. */
  ghost predicate Says(e: Engine, before: Table, d: TableDef, was: Snapshot, now: Table, saved: Snapshot) {
    && saved == d.fields && now.rows == before.rows
    && now.columns.Keys == (set k | k in d.fields :: d.fields[k].column)
    && forall k | k in d.fields && k in d.aux ::
         && d.fields[k].column in now.columns
         && Carried(e, before, d.aux[k], d.fields[k], EntryOf(was, k), now.columns[d.fields[k].column])
  }

  lemma TargetCarried(e: Engine, t: Table, d: TableDef, was: Snapshot, key: string)
    requires !e.sqlite && key in d.fields && d.aux.Keys == d.fields.Keys && Consistent(t, was)
    ensures Carried(e, t, d.aux[key], d.fields[key], EntryOf(was, key), Target(e, t, d, was, key))
  {
  }

  lemma MigratedSays(e: Engine, t: Table, d: TableDef, was: Snapshot, keys: seq<string>, u: Table)
    requires !e.sqlite && KeyOrder(keys, d, was) && Keyed(keys, d, was) && Consistent(t, was) && Extras(t, was) == {}
    requires RunKeys(e, t, d, was, keys, |keys|) == Some(u)
    ensures Says(e, t, d, was, u, SnapshotAt(e, d, was, keys, |keys|))
  {
    AllKeysListed(keys, d, was);
    ApplicableIffNoClash(e, t, d, was, keys, |keys|);
    MigrationResult(e, t, d, was, keys);
    forall k | k in d.fields && k in d.aux
      ensures d.fields[k].column in u.columns
              && Carried(e, t, d.aux[k], d.fields[k], EntryOf(was, k), u.columns[d.fields[k].column])
    {
      TargetCarried(e, t, d, was, k);
    }
  }

  lemma MigratedAsSaid(e: Engine, t: Table, d: TableDef, was: Snapshot, keys: seq<string>, u: Table)
    requires KeyOrder(keys, d, was) && Keyed(keys, d, was) && RunKeys(e, t, d, was, keys, |keys|) == Some(u)
    ensures !e.sqlite && Consistent(t, was) && Extras(t, was) == {} ==>
              Says(e, t, d, was, u, SnapshotAt(e, d, was, keys, |keys|))
  {
    if !e.sqlite && Consistent(t, was) && Extras(t, was) == {} {
      MigratedSays(e, t, d, was, keys, u);
    }
  }

  lemma OrdinaryRuns(e: Engine, t: Table, d: TableDef, was: Snapshot, keys: seq<string>)
    requires KeyOrder(keys, d, was) && Keyed(keys, d, was)
    ensures Consistent(t, was) && Ordinary(t, d, was) ==> RunKeys(e, t, d, was, keys, |keys|).Some?
  {
    if Consistent(t, was) && Ordinary(t, d, was) {
      OrdinaryAccepted(e, t, d, was, keys);
    }
  }

  /** The keys of `order` that are not among `known`, in their order. */
  function Without(order: seq<string>, known: seq<string>): seq<string> {
    if order == [] then []
    else
      var last := order[|order| - 1];
      Without(order[..|order| - 1], known) + if last in known then [] else [last]
  }

  /** The new definition's keys, then the old side's others. */
  ghost predicate NewKeysFirst(keys: seq<string>, d: TableDef, wasOrder: seq<string>) {
    keys == d.order + Without(wasOrder, d.order)
  }

  lemma {:induction false} WithoutWithin(order: seq<string>, known: seq<string>)
    ensures forall k :: k in Without(order, known) <==> k in order && k !in known
    decreases |order|
  {
    if order != [] {
      WithoutWithin(order[..|order| - 1], known);
      assert order == order[..|order| - 1] + [order[|order| - 1]];
    }
  }

  lemma WithoutGrows(order: seq<string>, known: seq<string>, i: nat)
    requires i < |order| && forall a, b | 0 <= a < b < |order| :: order[a] != order[b]
    ensures Without(order[..i + 1], known) == Without(order[..i], known) + if order[i] in known then [] else [order[i]]
    ensures order[i] in known + Without(order[..i], known) <==> order[i] in known
  {
    assert order[..i + 1][..i] == order[..i];
    WithoutWithin(order[..i], known);
  }

  lemma KeysCovered(keys: seq<string>, d: TableDef, was: Snapshot, wasOrder: seq<string>)
    requires ValidDef(d) && Enumerates(wasOrder, was.Keys) && d.order <= keys
    requires forall a | 0 <= a < |wasOrder| :: wasOrder[a] in keys
    ensures Covers(keys, d.fields.Keys + was.Keys)
  {
    forall k | k in d.fields.Keys + was.Keys ensures Listed(keys, k) {
      assert k in d.fields ==> Listed(d.order, k);
      assert k in was ==> Listed(wasOrder, k);
      assert k in keys;
    }
  }

  class TableMigrator {
    const engine: Engine
    var working: Table      // what this connection sees
    var committed: Table    // what survives a stop
    var snapshot: Snapshot  // the snapshot file

    constructor (engine: Engine, table: Table, snapshot: Snapshot)
      ensures this.engine == engine && working == committed == table && this.snapshot == snapshot
    {
      this.engine, this.working, this.committed, this.snapshot := engine, table, table, snapshot;
    }

    method Execute(s: Statement) returns (ok: bool)
      modifies this`working
      ensures ok <==> Apply(engine, old(working), s).Some?
      ensures working == if ok then Apply(engine, old(working), s).value else old(working)
    {
      match Apply(engine, working, s) {
        case None => ok := false;
        case Some(t) => ok, working := true, t;
      }
    }

    /** The statements of one key; with `commit_on_alter_table` each is committed and the snapshot saved.
        `stops[m]` is what a stop after `m` statements leaves: the committed table and the snapshot. */
    method RunQuery(query: seq<Statement>, current: Snapshot, fake: bool)
      returns (ok: bool, ghost stops: seq<(Table, Snapshot)>)
      modifies this
      ensures fake ==> ok && working == old(working) && committed == old(committed)
      ensures |stops| > 0
      ensures !fake ==> (ok <==> ApplyAll(engine, old(working), query).Some?)
      ensures !fake && ok ==> ApplyAll(engine, old(working), query) == Some(working)
      ensures ok ==> |stops| == |query| + 1
      ensures !ok ==> !fake && Fails(engine, old(working), query, |stops| - 1, working)
      ensures !fake ==> committed == if engine.commitOnAlter && |stops| > 1 then working else old(committed)
      ensures snapshot == if engine.commitOnAlter && |stops| > 1 then current else old(snapshot)
      ensures stops[|stops| - 1] == (committed, snapshot)
      ensures !fake && engine.commitOnAlter && old(committed == working) ==>
                forall m | 0 <= m < |stops| :: IsStop(engine, old(working), query, old(snapshot), current, m, stops[m])
    {
      ok := true;
      stops := [(committed, snapshot)];
      for i := 0 to |query|
        invariant fake ==> ok && working == old(working) && committed == old(committed)
        invariant !fake ==> ok && ApplyAll(engine, old(working), query) == ApplyAll(engine, working, query[i..])
        invariant !fake ==> ApplyAll(engine, old(working), query[..i]) == Some(working)
        invariant !fake ==> committed == if engine.commitOnAlter && i > 0 then working else old(committed)
        invariant snapshot == if engine.commitOnAlter && i > 0 then current else old(snapshot)
        invariant |stops| == i + 1 && stops[i] == (committed, snapshot)
        invariant !fake && engine.commitOnAlter && old(committed == working) ==>
                    forall m | 0 <= m <= i :: IsStop(engine, old(working), query, old(snapshot), current, m, stops[m])
      {
        if fake {
          if engine.commitOnAlter {
            snapshot := current;
          }
        } else {
          assert query[i..][1..] == query[i + 1..];
          ApplyMore(engine, old(working), query, i);
          ok := Execute(query[i]);
          if !ok {
            return;
          }
          if engine.commitOnAlter {
            committed := working;
            snapshot := current;
          }
        }
        stops := stops + [(committed, snapshot)];
      }
      assert query[..|query|] == query;
    }

    /** New keys first, then those only the snapshot has, in the order it lists them. */
    method KeysOf(d: TableDef, was: Snapshot, wasOrder: seq<string>) returns (keys: seq<string>)
      requires ValidDef(d) && Enumerates(wasOrder, was.Keys)
      ensures KeyOrder(keys, d, was)
      ensures NewKeysFirst(keys, d, wasOrder)
    {
      keys := d.order;
      for i := 0 to |wasOrder|
        invariant d.order <= keys && keys == d.order + Without(wasOrder[..i], d.order)
        invariant forall a | 0 <= a < |keys| :: keys[a] in d.fields || keys[a] in was
        invariant forall a | 0 <= a < i :: wasOrder[a] in keys
        invariant forall a, b | 0 <= a < b < |keys| :: keys[a] != keys[b]
      {
        WithoutGrows(wasOrder, d.order, i);
        if wasOrder[i] !in keys {
          keys := keys + [wasOrder[i]];
        }
      }
      assert wasOrder[..|wasOrder|] == wasOrder;
      KeysCovered(keys, d, was, wasOrder);
    }

    ghost function Now(): Disk
      reads this
    {
      Disk(working, committed, snapshot)
    }

    /** One turn of the loop: what the key emits, run or faked, and where it leaves the snapshot. */
    method MigrateKey(key: string, d: TableDef, was: Snapshot, current: Snapshot, changed: bool, fake: bool)
      returns (ok: bool, query: seq<Statement>, next: Snapshot, change: bool, ghost done: nat)
      requires d.aux.Keys == d.fields.Keys && (key in d.fields || key in was)
      modifies this
      ensures query == KeyStatements(engine, key, d, was) && next == KeySnapshot(engine, key, d, current)
      ensures change == (changed || KeyChanges(engine, key, d, was))
      ensures !fake ==> (ok <==> ApplyAll(engine, old(working), query).Some?)
      ensures ok ==> KeyRan(engine, old(Now()), query, next, change, fake, Now())
      ensures !ok ==> !fake && KeyFailed(engine, old(Now()), query, next, done, Now())
    {
      ok, done := true, 0;
      query := KeyStatements(engine, key, d, was);
      next := KeySnapshot(engine, key, d, current);
      change := changed || KeyChanges(engine, key, d, was);
      if query != [] {
        ghost var stops;
        ok, stops := RunQuery(query, next, fake);
        done := |stops| - 1;
      } else if change {
        snapshot := next;
      }
    }

    /** The loop. `trace[i]` is what a stop at key boundary i leaves: the committed table and the snapshot. */
    method MigrateKeys(d: TableDef, was: Snapshot, keys: seq<string>, fake: bool)
      returns (ok: bool, current: Snapshot, change: bool, query: seq<Statement>, ghost stop: nat, ghost done: nat,
               ghost trace: seq<(Table, Snapshot)>)
      requires Keyed(keys, d, was) && snapshot == was && committed == working
      modifies this
      ensures ok ==> Reached(engine, old(working), d, was, keys, |keys|, Now(), current, change, query, fake)
      ensures !ok ==> !fake && RunKeys(engine, old(working), d, was, keys, |keys|) == None
      ensures !ok ==> Rejected(engine, old(working), d, was, keys, stop, done, Now())
      ensures engine.commitOnAlter ==> |trace| == (if ok then |keys| else stop) + 1
      ensures engine.commitOnAlter && !fake ==> Traced(engine, old(working), d, was, keys, trace)
    {
      ghost var start := working;
      current, change, query := was, false, [];
      trace := [(committed, snapshot)];
      stop, done := |keys|, 0;
      for i := 0 to |keys|
        invariant Reached(engine, start, d, was, keys, i, Now(), current, change, query, fake)
        invariant TraceTo(engine, start, d, was, keys, i, trace, fake)
      {
        ghost var before, saved, touched, last := Now(), current, change, query;
        ok, query, current, change, done := MigrateKey(keys[i], d, was, current, change, fake);
        Turn(engine, start, d, was, keys, i, before, saved, touched, last, fake, trace, ok, done, Now(), current,
             change, query);
        if !ok {
          stop := i;
          return;
        }
        trace := trace + [(committed, snapshot)];
      }
      ok := true;
    }

    method MigrateTable(d: TableDef, wasOrder: seq<string>, fake: bool)
      returns (ok: bool, ghost keys: seq<string>, ghost stop: nat, ghost done: nat, ghost trace: seq<(Table, Snapshot)>)
      requires ValidDef(d) && Enumerates(wasOrder, snapshot.Keys) && committed == working
      modifies this
      ensures KeyOrder(keys, d, old(snapshot)) && Keyed(keys, d, old(snapshot))
      ensures NewKeysFirst(keys, d, wasOrder)
      ensures ok <==> fake || RunKeys(engine, old(working), d, old(snapshot), keys, |keys|).Some?
      ensures ok ==> snapshot == SnapshotAt(engine, d, old(snapshot), keys, |keys|) && committed == working
      ensures ok && !fake ==> RunKeys(engine, old(working), d, old(snapshot), keys, |keys|) == Some(working)
      ensures fake ==> working == old(working)
      ensures Consistent(old(working), old(snapshot)) && Ordinary(old(working), d, old(snapshot)) ==> ok
      ensures !engine.sqlite && !fake && ok
              && Consistent(old(working), old(snapshot)) && Extras(old(working), old(snapshot)) == {} ==>
                Says(engine, old(working), d, old(snapshot), committed, snapshot)
      ensures !ok ==> Rejected(engine, old(working), d, old(snapshot), keys, stop, done, Now())
      ensures engine.commitOnAlter ==> |trace| == (if ok then |keys| else stop) + 1
      ensures engine.commitOnAlter && !fake ==> Traced(engine, old(working), d, old(snapshot), keys, trace)
    {
      ghost var start := working;
      var was := snapshot;
      var order := KeysOf(d, was, wasOrder);
      keys := order;
      OrdinaryRuns(engine, working, d, was, order);
      var current, metadataChange, query;
      ok, current, metadataChange, query, stop, done, trace := MigrateKeys(d, was, order, fake);
      if !ok {
        return;
      }
      Finish(d, was, order, start, current, metadataChange, query, fake);
      FinishedSays(engine, start, d, was, order, fake, Now());
    }

    /** The last commit and the last snapshot, unless the last key's statements have seen to them. */
    method Finish(d: TableDef, was: Snapshot, ghost keys: seq<string>, ghost start: Table, current: Snapshot,
                  change: bool,
                  query: seq<Statement>, fake: bool)
      requires Keyed(keys, d, was)
      requires Reached(engine, start, d, was, keys, |keys|, Now(), current, change, query, fake)
      modifies this
      ensures Finished(engine, start, d, was, keys, fake, Now())
    {
      if change && !(query != [] && engine.commitOnAlter) {
        committed := working;
        snapshot := current;
      }
    }
  }

  ghost predicate Finished(e: Engine, start: Table, d: TableDef, was: Snapshot, keys: seq<string>, fake: bool,
                           now: Disk)
    requires Keyed(keys, d, was)
  {
    && now.snapshot == SnapshotAt(e, d, was, keys, |keys|) && now.committed == now.working
    && if fake then now.working == start else RunKeys(e, start, d, was, keys, |keys|) == Some(now.working)
  }

  lemma FinishedSays(e: Engine, start: Table, d: TableDef, was: Snapshot, keys: seq<string>, fake: bool, now: Disk)
    requires KeyOrder(keys, d, was) && Keyed(keys, d, was) && Finished(e, start, d, was, keys, fake, now)
    ensures !e.sqlite && !fake && Consistent(start, was) && Extras(start, was) == {} ==>
              Says(e, start, d, was, now.committed, now.snapshot)
  {
    if !fake {
      MigratedAsSaid(e, start, d, was, keys, now.working);
    }
  }

  lemma KeyRun(e: Engine, t: Table, d: TableDef, was: Snapshot, keys: seq<string>, n: nat, u: Table, fake: bool)
    requires n < |keys| && Keyed(keys, d, was) && (!fake ==> RunKeys(e, t, d, was, keys, n) == Some(u))
    ensures !fake ==> RunKeys(e, t, d, was, keys, n + 1) == ApplyAll(e, u, KeyStatements(e, keys[n], d, was))
    ensures KeyStatements(e, keys[n], d, was) != [] ==> KeyChanges(e, keys[n], d, was)
  {
    if !fake {
      RunStep(e, t, d, was, keys, n);
    }
  }

  lemma ApplyMore(e: Engine, t: Table, query: seq<Statement>, i: nat)
    requires i < |query|
    ensures ApplyAll(e, t, query[..i + 1])
            == match ApplyAll(e, t, query[..i]) case None => None case Some(u) => Apply(e, u, query[i])
  {
    assert query[..i + 1] == query[..i] + [query[i]];
    ApplyAppend(e, t, query[..i], [query[i]]);
    assert [query[i]][1..] == [];
  }

  lemma {:induction false} RunFailed(e: Engine, t: Table, d: TableDef, was: Snapshot, keys: seq<string>, n: nat)
    requires n <= |keys| && Keyed(keys, d, was) && RunKeys(e, t, d, was, keys, n) == None
    ensures RunKeys(e, t, d, was, keys, |keys|) == None
    decreases |keys| - n
  {
    if n < |keys| {
      RunStep(e, t, d, was, keys, n);
      RunFailed(e, t, d, was, keys, n + 1);
    }
  }

  lemma TraceGrows(e: Engine, t: Table, d: TableDef, was: Snapshot, keys: seq<string>, n: nat,
                   trace: seq<(Table, Snapshot)>, now: Disk, current: Snapshot, change: bool, query: seq<Statement>,
                   fake: bool)
    requires n < |keys| && Keyed(keys, d, was) && TraceTo(e, t, d, was, keys, n, trace, fake)
    requires Reached(e, t, d, was, keys, n + 1, now, current, change, query, fake)
    ensures TraceTo(e, t, d, was, keys, n + 1, trace + [(now.committed, now.snapshot)], fake)
  {
  }

  /** One turn of the loop, whichever way it ends. */
  lemma Turn(e: Engine, start: Table, d: TableDef, was: Snapshot, keys: seq<string>, n: nat, before: Disk,
             current: Snapshot, changed: bool, last: seq<Statement>, fake: bool, trace: seq<(Table, Snapshot)>,
             ok: bool, done: nat, now: Disk, next: Snapshot, change: bool, query: seq<Statement>)
    requires n < |keys| && Keyed(keys, d, was) && TraceTo(e, start, d, was, keys, n, trace, fake)
    requires Reached(e, start, d, was, keys, n, before, current, changed, last, fake)
    requires query == KeyStatements(e, keys[n], d, was) && next == KeySnapshot(e, keys[n], d, current)
    requires change == (changed || KeyChanges(e, keys[n], d, was))
    requires ok ==> KeyRan(e, before, query, next, change, fake, now)
    requires !ok ==> !fake && KeyFailed(e, before, query, next, done, now)
    ensures ok ==> Reached(e, start, d, was, keys, n + 1, now, next, change, query, fake)
    ensures ok ==> TraceTo(e, start, d, was, keys, n + 1, trace + [(now.committed, now.snapshot)], fake)
    ensures !ok ==> Rejected(e, start, d, was, keys, n, done, now) && RunKeys(e, start, d, was, keys, |keys|) == None
  {
    if ok {
      ReachNext(e, start, d, was, keys, n, before, current, changed, last, fake, now);
      TraceGrows(e, start, d, was, keys, n, trace, now, next, change, query, fake);
    } else {
      RejectNext(e, start, d, was, keys, n, before, done, now);
    }
  }
}
