/** What one key's column holds after any history of definitions and writes, told without the other keys. */
module MigrationValues {
  import opened Options
  import opened Migration
  import opened MigrationHistory

  /** One key's side of the database: its snapshot entry and its column. */
  datatype Line = Line(present: bool, rows: nat, entry: Option<(FieldDef, Column)>)

  /** The types a definition casts the values of a key to, in turn. */
  function Casts(was: FieldDef, d: TableDef, key: string): seq<string>
    requires key in d.fields && key in d.aux
  {
    var f := d.fields[key];
    if f.column != was.column then [d.aux[key]]
    else if f.sql != was.sql && !f.pinned then [d.aux[key], d.aux[key]]
    else []
  }

  function CastColumn(e: Engine, column: Column, casts: seq<string>): Column
    decreases |casts|
  {
    if casts == [] then column
    else CastColumn(e, Column(casts[0], Converted(e, casts[0], column.cells)), casts[1..])
  }

  function Defined(e: Engine, line: Line, d: TableDef, key: string): Line
    requires d.aux.Keys == d.fields.Keys
  {
    if key !in d.fields then Line(true, line.rows, None)
    else
      var sql := d.aux[key];
      var column := match line.entry
                    case None => Column(sql, seq(line.rows, _ => e.blank(sql)))
                    case Some((was, held)) => CastColumn(e, held, Casts(was, d, key));
      Line(true, line.rows, Some((d.fields[key], column)))
  }

  function Stored(e: Engine, line: Line, rows: nat, cells: map<string, seq<Cell>>): Line {
    if !line.present then line
    else
      match line.entry
      case None => line.(rows := rows)
      case Some((f, held)) =>
        var now := if f.column in cells && |cells[f.column]| == rows then cells[f.column]
                   else seq(rows, _ => e.blank(held.sql));
        Line(true, rows, Some((f, Column(held.sql, now))))
  }

  ghost predicate Sound(events: seq<Event>) {
    forall i | 0 <= i < |events| && events[i].Define? :: events[i].d.aux.Keys == events[i].d.fields.Keys
  }

  ghost function Story(e: Engine, events: seq<Event>, n: nat, key: string): Line
    requires Sound(events) && n <= |events|
  {
    if n == 0 then Line(false, 0, None)
    else
      var line := Story(e, events, n - 1, key);
      match events[n - 1]
      case Define(d, _) => Defined(e, line, d, key)
      case Write(rows, cells) => Stored(e, line, rows, cells)
  }

  /** The database shows the line of the key. */
  ghost predicate Shows(db: Db, key: string, line: Line) {
    match db
    case Absent => line == Line(false, 0, None)
    case Present(t, s) =>
      && line.present && line.rows == t.rows
      && (key in s <==> line.entry.Some?)
      && (key in s ==> s[key].column in t.columns && line.entry == Some((s[key], t.columns[s[key].column])))
  }

  lemma CastsAreTarget(e: Engine, t: Table, d: TableDef, was: Snapshot, key: string)
    requires !e.sqlite && d.aux.Keys == d.fields.Keys && Consistent(t, was) && key in d.fields && key in was
    ensures CastColumn(e, t.columns[was[key].column], Casts(was[key], d, key)) == Target(e, t, d, was, key)
  {
    var sql, held := d.aux[key], t.columns[was[key].column];
    var casts := Casts(was[key], d, key);
    if casts != [] {
      var once := Column(sql, Converted(e, sql, held.cells));
      assert CastColumn(e, held, casts) == CastColumn(e, once, casts[1..]);
      if |casts| == 2 {
        assert casts[1..] == [sql] && [sql][1..] == [];
        assert CastColumn(e, once, [sql]) == CastColumn(e, Column(sql, Converted(e, sql, once.cells)), []);
      }
    }
  }

  lemma CreatedColumn(e: Engine, d: TableDef, key: string)
    requires d.aux.Keys == d.fields.Keys && DistinctColumns(d.fields) && key in d.fields
    ensures d.fields[key].column in Created(d).columns
    ensures Created(d).columns[d.fields[key].column] == Column(d.aux[key], seq(0, _ => e.blank(d.aux[key])))
  {
    assert seq(0, _ => e.blank(d.aux[key])) == [];
  }

  lemma DefineShows(e: Engine, db: Db, d: TableDef, keys: seq<string>, key: string, line: Line)
    requires !e.sqlite && Agrees(db) && ValidDef(d) && (db.Present? ==> KeyOrder(keys, d, db.snapshot))
    requires DefineTable(e, db, d, keys).Some? && Shows(db, key, line)
    ensures Shows(DefineTable(e, db, d, keys).value, key, Defined(e, line, d, key))
  {
    match db
    case Absent =>
      if key in d.fields {
        CreatedColumn(e, d, key);
      }
    case Present(t, was) =>
      if key in d.fields && key in was {
        CastsAreTarget(e, t, d, was, key);
      }
      if d.fields != was {
        DefineKeepsAgreement(e, db, d, keys);
        MigrationResult(e, t, d, was, keys);
      }
  }

  lemma HistoryIsSound(e: Engine, events: seq<Event>, dbs: seq<Db>)
    requires IsHistory(e, events, dbs)
    ensures Sound(events)
  {
    forall i | 0 <= i < |events| && events[i].Define? ensures events[i].d.aux.Keys == events[i].d.fields.Keys {
      assert Applicable(dbs[i], events[i]);
    }
  }

  /** Over every history each key's snapshot entry and column are what its own definitions and writes make
      of them: fresh when the key comes, cast by each definition as its entry changes, gone when it goes. */
  lemma {:induction false} HistoryTold(e: Engine, events: seq<Event>, dbs: seq<Db>, n: nat, key: string)
    requires !e.sqlite && IsHistory(e, events, dbs) && n <= |events|
    ensures Sound(events) && Shows(dbs[n], key, Story(e, events, n, key))
  {
    HistoryIsSound(e, events, dbs);
    if n > 0 {
      var m := n - 1;
      HistoryTold(e, events, dbs, m, key);
      HistoryAgrees(e, events, dbs, m);
      assert Step(e, dbs[m], events[m]) == Some(dbs[m + 1]);
      match events[m]
      case Define(d, keys) => DefineShows(e, dbs[m], d, keys, key, Story(e, events, m, key));
      case Write(_, _) =>
    }
  }

  // ----- Values carried through definitions

  function Cast(e: Engine, casts: seq<string>, cell: Cell): Cell
    decreases |casts|
  {
    if casts == [] then cell else Cast(e, casts[1..], e.convert(casts[0], cell))
  }

  /** Each value has been cast to those types in turn. */
  ghost predicate Carried(e: Engine, casts: seq<string>, from: seq<Cell>, to: seq<Cell>) {
    |to| == |from| && forall i | 0 <= i < |from| :: to[i] == Cast(e, casts, from[i])
  }

  lemma {:induction false} CastCells(e: Engine, column: Column, casts: seq<string>)
    ensures Carried(e, casts, column.cells, CastColumn(e, column, casts).cells)
    decreases |casts|
  {
    if casts != [] {
      CastCells(e, Column(casts[0], Converted(e, casts[0], column.cells)), casts[1..]);
    }
  }

  lemma {:induction false} CastAppend(e: Engine, a: seq<string>, b: seq<string>, cell: Cell)
    ensures Cast(e, a + b, cell) == Cast(e, b, Cast(e, a, cell))
    decreases |a|
  {
    if a == [] {
      assert a + b == b;
    } else {
      assert (a + b)[1..] == a[1..] + b;
      CastAppend(e, a[1..], b, e.convert(a[0], cell));
    }
  }

  lemma CarriedTwice(e: Engine, a: seq<string>, b: seq<string>, x: seq<Cell>, y: seq<Cell>, z: seq<Cell>)
    requires Carried(e, a, x, y) && Carried(e, b, y, z)
    ensures Carried(e, a + b, x, z)
  {
    forall i | 0 <= i < |x| ensures z[i] == Cast(e, a + b, x[i]) {
      CastAppend(e, a, b, x[i]);
    }
  }

  /** Events `m` to `n` are definitions that all have the key. */
  ghost predicate KeptThrough(events: seq<Event>, m: nat, n: nat, key: string) {
    m <= n <= |events| && forall i | m <= i < n :: events[i].Define? && key in events[i].d.fields
  }

  /** All types the definitions from `m` to `n` cast the values to, in turn. */
  ghost function AllCasts(events: seq<Event>, was: FieldDef, m: nat, n: nat, key: string): seq<string>
    requires Sound(events) && KeptThrough(events, m, n, key)
    decreases n - m
  {
    if m == n then []
    else Casts(was, events[m].d, key) + AllCasts(events, events[m].d.fields[key], m + 1, n, key)
  }

  ghost predicate Has(db: Db, key: string) {
    Agrees(db) && db.Present? && key in db.snapshot
  }

  ghost function Cells(db: Db, key: string): seq<Cell>
    requires Has(db, key)
  {
    db.table.columns[db.snapshot[key].column].cells
  }

  /** A key kept through several definitions holds its old values, each cast to all those types in turn. */
  lemma {:induction false} ValuesCarried(e: Engine, events: seq<Event>, dbs: seq<Db>, m: nat, n: nat, key: string)
    requires !e.sqlite && IsHistory(e, events, dbs) && KeptThrough(events, m, n, key)
    requires Has(dbs[m], key)
    ensures Sound(events) && Has(dbs[n], key)
    ensures Carried(e, AllCasts(events, dbs[m].snapshot[key], m, n, key), Cells(dbs[m], key), Cells(dbs[n], key))
    decreases n - m
  {
    HistoryIsSound(e, events, dbs);
    if m < n {
      OneDefinitionCarries(e, events, dbs, m, key);
      ValuesCarried(e, events, dbs, m + 1, n, key);
      CarriedTwice(e, Casts(dbs[m].snapshot[key], events[m].d, key),
                   AllCasts(events, events[m].d.fields[key], m + 1, n, key),
                   Cells(dbs[m], key), Cells(dbs[m + 1], key), Cells(dbs[n], key));
    }
  }

  lemma OneDefinitionCarries(e: Engine, events: seq<Event>, dbs: seq<Db>, m: nat, key: string)
    requires !e.sqlite && IsHistory(e, events, dbs) && m < |events|
    requires events[m].Define? && key in events[m].d.fields && Has(dbs[m], key)
    ensures Has(dbs[m + 1], key) && dbs[m + 1].snapshot[key] == events[m].d.fields[key]
    ensures Carried(e, Casts(dbs[m].snapshot[key], events[m].d, key), Cells(dbs[m], key), Cells(dbs[m + 1], key))
  {
    HistoryAgrees(e, events, dbs, m + 1);
    HistoryTold(e, events, dbs, m, key);
    HistoryTold(e, events, dbs, m + 1, key);
    var held := dbs[m].table.columns[dbs[m].snapshot[key].column];
    CastCells(e, held, Casts(dbs[m].snapshot[key], events[m].d, key));
  }
}
