/** Whole histories of `define_table`: the first definition creates the table, later ones migrate
    it, and rows are written in between.
  */
module MigrationHistory {
  import opened Options
  import opened Migration

  /** The database table and the snapshot file; neither exists before the first definition. */
  datatype Db = Absent | Present(table: Table, snapshot: Snapshot)

  datatype Event =
    | Define(d: TableDef, keys: seq<string>)
    | Write(rows: nat, cells: map<string, seq<Cell>>)

  ghost predicate DistinctColumns(s: Snapshot) {
    forall k, l | k in s && l in s && k != l :: s[k].column != s[l].column
  }

  /** CREATE TABLE */
  ghost function Created(d: TableDef): Table
    requires d.aux.Keys == d.fields.Keys && DistinctColumns(d.fields)
  {
    Table(0, map k | k in d.fields :: d.fields[k].column := Column(d.aux[k], []))
  }

  /** The end of `create_table`: create, migrate or nothing; None when the database rejects a statement. */
  ghost function DefineTable(e: Engine, db: Db, d: TableDef, keys: seq<string>): Option<Db>
    requires ValidDef(d) && (db.Present? ==> KeyOrder(keys, d, db.snapshot))
  {
    match db
    case Absent => if DistinctColumns(d.fields) then Some(Present(Created(d), d.fields)) else None
    case Present(t, s) =>
      if d.fields == s then Some(db)
      else
        match RunKeys(e, t, d, s, keys, |keys|)
        case None => None
        case Some(u) => Some(Present(u, SnapshotAt(e, d, s, keys, |keys|)))
  }

  ghost function Written(e: Engine, t: Table, rows: nat, cells: map<string, seq<Cell>>): Table {
    Table(rows, map c | c in t.columns ::
      Column(t.columns[c].sql,
             if c in cells && |cells[c]| == rows then cells[c] else seq(rows, _ => e.blank(t.columns[c].sql))))
  }

  ghost predicate Applicable(db: Db, ev: Event) {
    match ev
    case Define(d, keys) => ValidDef(d) && (db.Present? ==> KeyOrder(keys, d, db.snapshot))
    case Write(_, _) => true
  }

  ghost function Step(e: Engine, db: Db, ev: Event): Option<Db>
    requires Applicable(db, ev)
  {
    match ev
    case Define(d, keys) => DefineTable(e, db, d, keys)
    case Write(rows, cells) => if db.Absent? then Some(db) else Some(db.(table := Written(e, db.table, rows, cells)))
  }

  /** `dbs` is the run of `events` from nothing, no statement rejected. */
  ghost predicate IsHistory(e: Engine, events: seq<Event>, dbs: seq<Db>) {
    && |dbs| == |events| + 1 && dbs[0] == Absent
    && forall i | 0 <= i < |events| :: Applicable(dbs[i], events[i]) && Step(e, dbs[i], events[i]) == Some(dbs[i + 1])
  }

  /** The table has exactly the snapshot's columns, one per key. */
  ghost predicate Agrees(db: Db) {
    db.Present? ==> Consistent(db.table, db.snapshot) && Extras(db.table, db.snapshot) == {}
  }

  lemma CreatedAgrees(d: TableDef)
    requires d.aux.Keys == d.fields.Keys && DistinctColumns(d.fields)
    ensures Agrees(Present(Created(d), d.fields))
  {
    var t := Created(d);
    forall k | k in d.fields ensures d.fields[k].column in t.columns {
    }
    forall c | c in t.columns ensures c in Image(d.fields) && |t.columns[c].cells| == t.rows {
      var k :| k in d.fields && d.fields[k].column == c;
    }
  }

  lemma WrittenAgrees(e: Engine, db: Db, rows: nat, cells: map<string, seq<Cell>>)
    requires db.Present? && Agrees(db)
    ensures Agrees(db.(table := Written(e, db.table, rows, cells)))
  {
    assert Written(e, db.table, rows, cells).columns.Keys == db.table.columns.Keys;
  }

  /** One definition on an engine that drops columns: accepted exactly when no key clashes, and then
      the database and the snapshot both say the new definition. */
  lemma DefineKeepsAgreement(e: Engine, db: Db, d: TableDef, keys: seq<string>)
    requires !e.sqlite && Agrees(db) && ValidDef(d) && (db.Present? ==> KeyOrder(keys, d, db.snapshot))
    ensures DefineTable(e, db, d, keys).Some? <==>
            if db.Absent? then DistinctColumns(d.fields)
            else d.fields == db.snapshot || NoClash(e, db.table, d, db.snapshot, keys, |keys|)
    ensures DefineTable(e, db, d, keys).Some? ==>
              Agrees(DefineTable(e, db, d, keys).value) && DefineTable(e, db, d, keys).value.Present?
              && DefineTable(e, db, d, keys).value.snapshot == d.fields
  {
    if db.Absent? {
      if DistinctColumns(d.fields) {
        CreatedAgrees(d);
      }
    } else if d.fields != db.snapshot {
      AllKeysListed(keys, d, db.snapshot);
      ApplicableIffNoClash(e, db.table, d, db.snapshot, keys, |keys|);
      if NoClash(e, db.table, d, db.snapshot, keys, |keys|) {
        MigrationResult(e, db.table, d, db.snapshot, keys);
      }
    }
  }

  /** And an ordinary definition is accepted. */
  lemma OrdinaryDefine(e: Engine, db: Db, d: TableDef, keys: seq<string>)
    requires Agrees(db) && ValidDef(d) && db.Present? && KeyOrder(keys, d, db.snapshot)
    requires Ordinary(db.table, d, db.snapshot)
    ensures DefineTable(e, db, d, keys).Some?
  {
    OrdinaryAccepted(e, db.table, d, db.snapshot, keys);
  }

  /** Over every history the columns, their contents and the snapshot stay in agreement. */
  lemma {:induction false} HistoryAgrees(e: Engine, events: seq<Event>, dbs: seq<Db>, n: nat)
    requires !e.sqlite && IsHistory(e, events, dbs) && n <= |events|
    ensures Agrees(dbs[n])
    ensures n > 0 && events[n - 1].Define? ==> dbs[n].Present? && dbs[n].snapshot == events[n - 1].d.fields
  {
    if n > 0 {
      var m := n - 1;
      HistoryAgrees(e, events, dbs, m);
      assert Step(e, dbs[m], events[m]) == Some(dbs[m + 1]);
      match events[m]
      case Define(d, keys) => DefineKeepsAgreement(e, dbs[m], d, keys);
      case Write(rows, cells) =>
        if dbs[m].Present? {
          WrittenAgrees(e, dbs[m], rows, cells);
        }
    }
  }

  // ----- SQLite, where columns are never dropped

  /** Each key keeps one column name, its own. */
  ghost predicate Stable(names: map<string, string>, s: Snapshot) {
    && (forall k | k in s :: k in names && s[k].column == names[k])
    && forall k, l | k in names && l in names && k != l :: names[k] != names[l]
  }

  ghost function KeysDefined(events: seq<Event>, n: nat): set<string>
    requires n <= |events|
  {
    if n == 0 then {}
    else KeysDefined(events, n - 1) + if events[n - 1].Define? then events[n - 1].d.fields.Keys else {}
  }

  lemma StableNoClash(e: Engine, t: Table, d: TableDef, was: Snapshot, keys: seq<string>, names: map<string, string>)
    requires e.sqlite && Keyed(keys, d, was) && Consistent(t, was) && Extras(t, was) == {}
    requires Stable(names, was) && Stable(names, d.fields)
    ensures NoClash(e, t, d, was, keys, |keys|)
  {
    forall n | 0 <= n < |keys| ensures !Clash(e, t, d, was, keys, n) {
      StableKeyFree(e, t, d, was, keys, n, names);
    }
  }

  lemma StableKeyFree(e: Engine, t: Table, d: TableDef, was: Snapshot, keys: seq<string>, n: nat,
                      names: map<string, string>)
    requires e.sqlite && Keyed(keys, d, was) && Consistent(t, was) && Extras(t, was) == {}
    requires Stable(names, was) && Stable(names, d.fields) && n < |keys|
    ensures !Clash(e, t, d, was, keys, n)
  {
    var key := keys[n];
    if key in d.fields && key !in was {
      var c := d.fields[key].column;
      forall j | 0 <= j < |keys|
        ensures j < n ==> !IsAfter(e, d, was, keys[j], c)
        ensures n <= j ==> !IsBefore(was, keys[j], c)
      {
        StableKeysDiffer(e, d, was, key, keys[j], names);
      }
      assert !Occupied(e, t, d, was, keys, n, c);
    }
  }

  /** No other key has the name of a key's column. */
  lemma StableKeysDiffer(e: Engine, d: TableDef, was: Snapshot, key: string, other: string, names: map<string, string>)
    requires Stable(names, was) && Stable(names, d.fields) && key in d.fields
    ensures other != key ==> !IsAfter(e, d, was, other, d.fields[key].column)
    ensures other != key ==> !IsBefore(was, other, d.fields[key].column)
  {
    assert names[key] == d.fields[key].column;
  }

  lemma StableEmitsNothing(e: Engine, d: TableDef, was: Snapshot, names: map<string, string>)
    requires e.sqlite && ValidDef(d) && Stable(names, was) && Stable(names, d.fields)
    ensures forall k | k in was :: KeyStatements(e, k, d, was) == []
    ensures forall k | k in d.fields :: KeyStatements(e, k, d, was + d.fields) == []
  {
  }

  /** A definition with stable names is never rejected, loses no column and no value, emits nothing
      for a key the snapshot knows, and leaves nothing to emit for itself. */
  lemma SqliteDefine(e: Engine, t: Table, d: TableDef, was: Snapshot, keys: seq<string>, names: map<string, string>)
    requires e.sqlite && KeyOrder(keys, d, was) && Consistent(t, was) && Extras(t, was) == {}
    requires Stable(names, was) && Stable(names, d.fields)
    ensures RunKeys(e, t, d, was, keys, |keys|).Some?
    ensures SnapshotAt(e, d, was, keys, |keys|) == was + d.fields
    ensures var u := RunKeys(e, t, d, was, keys, |keys|).value;
            && u.rows == t.rows && Consistent(u, was + d.fields) && Extras(u, was + d.fields) == {}
            && forall c | c in t.columns :: Untouched(t, c, u.columns)
    ensures forall k | k in was :: KeyStatements(e, k, d, was) == []
    ensures forall k | k in d.fields :: KeyStatements(e, k, d, was + d.fields) == []
  {
    StableEmitsNothing(e, d, was, names);
    AllKeysListed(keys, d, was);
    SnapshotAtEnd(e, d, was, keys);
    StableNoClash(e, t, d, was, keys, names);
    ApplicableIffNoClash(e, t, d, was, keys, |keys|);
    var u := RunKeys(e, t, d, was, keys, |keys|).value;
    BoundaryConsistent(e, t, d, was, keys, |keys|, u);
    SqliteColumns(e, t, d, was, keys, names, u);
  }

  lemma SqliteColumns(e: Engine, t: Table, d: TableDef, was: Snapshot, keys: seq<string>, names: map<string, string>,
                      u: Table)
    requires e.sqlite && Keyed(keys, d, was) && Covers(keys, was.Keys) && Consistent(t, was) && Extras(t, was) == {}
    requires Stable(names, was) && Stable(names, d.fields) && Boundary(e, t, d, was, keys, |keys|, u)
    ensures Extras(u, was + d.fields) == {}
    ensures forall c | c in t.columns :: Untouched(t, c, u.columns)
  {
    forall c | c in u.columns ensures c in Image(was + d.fields) {
      SqliteColumnKnown(e, t, d, was, keys, names, c);
    }
    forall c | c in t.columns ensures Untouched(t, c, u.columns) {
      SqliteColumn(e, t, d, was, keys, names, u, c);
    }
  }

  lemma SqliteColumnKnown(e: Engine, t: Table, d: TableDef, was: Snapshot, keys: seq<string>,
                          names: map<string, string>, c: string)
    requires e.sqlite && Keyed(keys, d, was) && Extras(t, was) == {}
    requires Stable(names, was) && Stable(names, d.fields) && Occupied(e, t, d, was, keys, |keys|, c)
    ensures c in Image(was + d.fields)
  {
    var j :| 0 <= j < |keys| && IsAfter(e, d, was, keys[j], c);
    assert (was + d.fields)[keys[j]].column == c;
  }

  lemma SqliteColumn(e: Engine, t: Table, d: TableDef, was: Snapshot, keys: seq<string>, names: map<string, string>,
                     u: Table, c: string)
    requires e.sqlite && Keyed(keys, d, was) && Covers(keys, was.Keys) && Consistent(t, was) && Extras(t, was) == {}
    requires Stable(names, was) && Stable(names, d.fields) && Boundary(e, t, d, was, keys, |keys|, u)
    requires c in t.columns
    ensures Untouched(t, c, u.columns)
  {
    assert c !in Extras(t, was);
    assert c in Image(was);
    var k :| k in was && was[k].column == c;
    assert Listed(keys, k);
    var j :| 0 <= j < |keys| && keys[j] == k;
    if k in d.fields {
      assert Moved(e, t, d, was, keys[j], u.columns);
    } else {
      assert LeftBehind(e, d, was, keys[j]);
    }
  }

  ghost function Known(db: Db): set<string> {
    if db.Present? then db.snapshot.Keys else {}
  }

  /** What a definition of an existing table does, whether it migrates or finds nothing to do. */
  lemma SqliteRedefine(e: Engine, db: Db, d: TableDef, keys: seq<string>, names: map<string, string>)
    requires e.sqlite && Agrees(db) && db.Present? && KeyOrder(keys, d, db.snapshot)
    requires Stable(names, d.fields) && Stable(names, db.snapshot)
    ensures DefineTable(e, db, d, keys).Some?
    ensures var next := DefineTable(e, db, d, keys).value;
            next.Present? && next.snapshot == db.snapshot + d.fields && Agrees(next)
  {
    if d.fields == db.snapshot {
      assert db.snapshot + d.fields == db.snapshot;
    } else {
      SqliteDefine(e, db.table, d, db.snapshot, keys, names);
    }
  }

  lemma StableUnion(names: map<string, string>, was: Snapshot, s: Snapshot)
    requires Stable(names, was) && Stable(names, s)
    ensures Stable(names, was + s) && (was + s).Keys == was.Keys + s.Keys
  {
  }

  /** With stable names no SQLite definition is rejected, and the snapshot gains the keys it defines. */
  lemma SqliteStep(e: Engine, db: Db, d: TableDef, keys: seq<string>, names: map<string, string>)
    requires e.sqlite && Agrees(db) && ValidDef(d) && (db.Present? ==> KeyOrder(keys, d, db.snapshot))
    requires Stable(names, d.fields) && (db.Present? ==> Stable(names, db.snapshot))
    ensures DefineTable(e, db, d, keys).Some?
    ensures var next := DefineTable(e, db, d, keys).value;
            && Agrees(next) && next.Present? && Stable(names, next.snapshot)
            && Known(next) == Known(db) + d.fields.Keys
  {
    if db.Absent? {
      CreatedAgrees(d);
    } else {
      SqliteRedefine(e, db, d, keys, names);
      StableUnion(names, db.snapshot, d.fields);
    }
  }

  /** Over every SQLite history with stable names the snapshot knows every key ever defined and the
      database has exactly those columns. */
  lemma {:induction false} SqliteHistory(e: Engine, events: seq<Event>, dbs: seq<Db>, n: nat,
                                         names: map<string, string>)
    requires e.sqlite && IsHistory(e, events, dbs) && n <= |events|
    requires forall i | 0 <= i < |events| && events[i].Define? :: Stable(names, events[i].d.fields)
    ensures Agrees(dbs[n]) && Known(dbs[n]) == KeysDefined(events, n)
    ensures dbs[n].Present? ==> Stable(names, dbs[n].snapshot)
  {
    if n > 0 {
      var m := n - 1;
      SqliteHistory(e, events, dbs, m, names);
      assert Step(e, dbs[m], events[m]) == Some(dbs[m + 1]);
      match events[m]
      case Define(d, keys) => SqliteStep(e, dbs[m], d, keys, names);
      case Write(rows, cells) =>
        if dbs[m].Present? {
          WrittenAgrees(e, dbs[m], rows, cells);
        }
    }
  }

  /** SQLite keeps a column for good: it is occupied whenever a later definition wants its name. */
  lemma SqliteColumnStays(e: Engine, t: Table, d: TableDef, was: Snapshot, keys: seq<string>, n: nat, c: string)
    requires e.sqlite && Keyed(keys, d, was) && Covers(keys, was.Keys) && c in t.columns && n <= |keys|
    ensures Occupied(e, t, d, was, keys, n, c)
  {
    if c in Image(was) {
      var k :| k in was && was[k].column == c;
      assert Listed(keys, k);
      var j :| 0 <= j < |keys| && keys[j] == k;
      assert IsBefore(was, keys[j], c) && IsAfter(e, d, was, keys[j], c);
    }
  }

  lemma RenameLeavesColumn(e: Engine, t: Table, d: TableDef, was: Snapshot, keys: seq<string>,
                           key: string) returns (u: Table)
    requires e.sqlite && Consistent(t, was) && KeyOrder(keys, d, was)
    requires NoClash(e, t, d, was, keys, |keys|) && Renamed(key, d, was)
    ensures RunKeys(e, t, d, was, keys, |keys|) == Some(u) && Consistent(u, was + d.fields)
    ensures SnapshotAt(e, d, was, keys, |keys|) == was + d.fields
    ensures was[key].column in u.columns
  {
    AllKeysListed(keys, d, was);
    SnapshotAtEnd(e, d, was, keys);
    ApplicableIffNoClash(e, t, d, was, keys, |keys|);
    u := RunKeys(e, t, d, was, keys, |keys|).value;
    BoundaryConsistent(e, t, d, was, keys, |keys|, u);
    assert Listed(keys, key);
    var i :| 0 <= i < |keys| && keys[i] == key;
    assert LeftBehind(e, d, was, keys[i]);
    assert Untouched(t, was[keys[i]].column, u.columns);
  }

  lemma RenameToTakenRejected(e: Engine, t: Table, d: TableDef, was: Snapshot, keys: seq<string>, key: string)
    requires e.sqlite && Consistent(t, was) && KeyOrder(keys, d, was)
    requires Renamed(key, d, was) && d.fields[key].column in t.columns
    ensures RunKeys(e, t, d, was, keys, |keys|) == None
  {
    AllKeysListed(keys, d, was);
    assert Listed(keys, key);
    var n :| 0 <= n < |keys| && keys[n] == key;
    SqliteColumnStays(e, t, d, was, keys, n, d.fields[key].column);
    assert Clash(e, t, d, was, keys, n);
    ApplicableIffNoClash(e, t, d, was, keys, |keys|);
  }

  /** Without stable names one can be: once definition `b` has renamed the column of a key, going
      back to its old name is rejected, whatever else the two definitions say. */
  lemma SqliteRenameBackRejected(e: Engine, t: Table, a: TableDef, b: TableDef, keys: seq<string>, key: string,
                                 back: seq<string>)
    requires e.sqlite && Consistent(t, a.fields) && ValidDef(a) && KeyOrder(keys, b, a.fields)
    requires NoClash(e, t, b, a.fields, keys, |keys|) && Renamed(key, b, a.fields)
    requires KeyOrder(back, a, a.fields + b.fields)
    ensures DefineTable(e, Present(t, a.fields), b, keys).Some?
    ensures var db := DefineTable(e, Present(t, a.fields), b, keys).value;
            db.Present? && db.snapshot == a.fields + b.fields && DefineTable(e, db, a, back) == None
  {
    var u := RenameLeavesColumn(e, t, b, a.fields, keys, key);
    assert a.fields[key] != b.fields[key];
    DefineMigrates(e, t, a.fields, b, keys);
    RenameToTakenRejected(e, u, a, a.fields + b.fields, back, key);
    DefineMigrates(e, u, a.fields + b.fields, a, back);
  }

  lemma DefineMigrates(e: Engine, t: Table, was: Snapshot, d: TableDef, keys: seq<string>)
    requires KeyOrder(keys, d, was) && d.fields != was
    ensures DefineTable(e, Present(t, was), d, keys)
            == match RunKeys(e, t, d, was, keys, |keys|)
               case None => None
               case Some(u) => Some(Present(u, SnapshotAt(e, d, was, keys, |keys|)))
  {
  }
}
