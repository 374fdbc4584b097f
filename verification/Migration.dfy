/** Schema migration: the statements the migrator emits for each column key, and the agreement
    between the database columns, their contents and the durable snapshot.

    Column names stand for their case-folded form: the migrator compares them that way.
  */
module Migration {
  import opened Options

  /** One entry of `sql_fields`.  `pinned` says that a change of `sql` does not rebuild the column
      (custom, reference, double and id types); `rest` is everything else in the entry. */
  datatype FieldDef = FieldDef(column: string, sql: string, pinned: bool, rest: string)

  type Snapshot = map<string, FieldDef>

  /** `sql_fields` with its iteration order, and the column text of `sql_fields_aux`. */
  datatype TableDef = TableDef(fields: Snapshot, order: seq<string>, aux: map<string, string>)

  datatype Cell = Cell(text: string)

  datatype Column = Column(sql: string, cells: seq<Cell>)

  datatype Table = Table(rows: nat, columns: map<string, Column>)

  /** `blank` is what ADD stores in existing rows, `convert` what an assignment to a column stores. */
  datatype Engine = Engine(sqlite: bool, commitOnAlter: bool, blank: string -> Cell, convert: (string, Cell) -> Cell)

  datatype Statement = Add(name: string, sql: string) | Copy(to: string, from: string) | Drop(name: string)

  // ----- The database

  function Converted(e: Engine, sql: string, cells: seq<Cell>): seq<Cell> {
    seq(|cells|, i requires 0 <= i < |cells| => e.convert(sql, cells[i]))
  }

  /** None when the database rejects the statement. */
  function Apply(e: Engine, t: Table, s: Statement): Option<Table> {
    match s
    case Add(name, sql) =>
      if name in t.columns then None
      else Some(t.(columns := t.columns[name := Column(sql, seq(t.rows, _ => e.blank(sql)))]))
    case Copy(to, from) =>
      if to !in t.columns || from !in t.columns then None
      else
        var sql := t.columns[to].sql;
        Some(t.(columns := t.columns[to := Column(sql, Converted(e, sql, t.columns[from].cells))]))
    case Drop(name) =>
      if name !in t.columns then None else Some(t.(columns := t.columns - {name}))
  }

  function ApplyAll(e: Engine, t: Table, stmts: seq<Statement>): Option<Table>
    decreases |stmts|
  {
    if stmts == [] then Some(t)
    else
      match Apply(e, t, stmts[0])
      case None => None
      case Some(u) => ApplyAll(e, u, stmts[1..])
  }

  // ----- The migrator, one key at a time

  ghost predicate ValidDef(d: TableDef) {
    && d.aux.Keys == d.fields.Keys
    && Enumerates(d.order, d.fields.Keys)
  }

  ghost predicate Listed(keys: seq<string>, k: string) {
    exists i :: 0 <= i < |keys| && keys[i] == k
  }

  ghost predicate Covers(keys: seq<string>, s: set<string>) {
    forall k {:trigger Listed(keys, k)} | k in s :: Listed(keys, k)
  }

  /** `keys` lists the set, each member once. */
  ghost predicate Enumerates(keys: seq<string>, s: set<string>) {
    && (forall i | 0 <= i < |keys| :: keys[i] in s)
    && Covers(keys, s)
    && forall i, j | 0 <= i < j < |keys| :: keys[i] != keys[j]
  }

  predicate Renamed(key: string, d: TableDef, was: Snapshot) {
    key in was && key in d.fields && d.fields[key].column != was[key].column
  }

  predicate Rebuilt(e: Engine, key: string, d: TableDef, was: Snapshot) {
    && !e.sqlite && key in was && key in d.fields && !Renamed(key, d, was)
    && d.fields[key].sql != was[key].sql && !d.fields[key].pinned
  }

  function Tmp(key: string): string { key + "__tmp" }

  function KeyStatements(e: Engine, key: string, d: TableDef, was: Snapshot): seq<Statement>
    requires d.aux.Keys == d.fields.Keys && (key in d.fields || key in was)
  {
    if key !in was then [Add(d.fields[key].column, d.aux[key])]
    else if e.sqlite then
      if Renamed(key, d, was)
      then [Add(d.fields[key].column, d.aux[key]), Copy(d.fields[key].column, was[key].column)]
      else []
    else if key !in d.fields then [Drop(was[key].column)]
    else if Renamed(key, d, was) then
      [Add(d.fields[key].column, d.aux[key]), Copy(d.fields[key].column, was[key].column), Drop(was[key].column)]
    else if Rebuilt(e, key, d, was) then
      [Add(Tmp(key), d.aux[key]), Copy(Tmp(key), was[key].column), Drop(was[key].column),
       Add(d.fields[key].column, d.aux[key]), Copy(d.fields[key].column, Tmp(key)), Drop(Tmp(key))]
    else []
  }

  /** `sql_fields_current` after the key. */
  function KeySnapshot(e: Engine, key: string, d: TableDef, current: Snapshot): Snapshot {
    if key in d.fields then current[key := d.fields[key]]
    else if e.sqlite then current
    else current - {key}
  }

  /** The key sets `metadata_change`. */
  predicate KeyChanges(e: Engine, key: string, d: TableDef, was: Snapshot) {
    key !in was || e.sqlite || key !in d.fields || d.fields[key] != was[key]
  }

  /** `keys` lists keys of either side, none twice. */
  ghost predicate Keyed(keys: seq<string>, d: TableDef, was: Snapshot) {
    && d.aux.Keys == d.fields.Keys
    && (forall i | 0 <= i < |keys| :: keys[i] in d.fields || keys[i] in was)
    && forall i, j | 0 <= i < j < |keys| :: keys[i] != keys[j]
  }

  /** `keys` as `migrate_table` builds it: the new keys, then those only the old side has. */
  ghost predicate KeyOrder(keys: seq<string>, d: TableDef, was: Snapshot) {
    && ValidDef(d)
    && Enumerates(keys, d.fields.Keys + was.Keys)
    && d.order <= keys
  }

  /** The table after the first `n` keys, None when a statement was rejected. */
  function RunKeys(e: Engine, t: Table, d: TableDef, was: Snapshot, keys: seq<string>, n: nat): Option<Table>
    requires n <= |keys| && Keyed(keys, d, was)
  {
    if n == 0 then Some(t)
    else
      match RunKeys(e, t, d, was, keys, n - 1)
      case None => None
      case Some(u) => ApplyAll(e, u, KeyStatements(e, keys[n - 1], d, was))
  }

  function SnapshotAt(e: Engine, d: TableDef, was: Snapshot, keys: seq<string>, n: nat): Snapshot
    requires n <= |keys|
  {
    if n == 0 then was else KeySnapshot(e, keys[n - 1], d, SnapshotAt(e, d, was, keys, n - 1))
  }

  // ----- Reference description of every key boundary

  /** The snapshot's columns exist and no two keys share one. */
  ghost predicate Consistent(t: Table, s: Snapshot) {
    && (forall k | k in s :: s[k].column in t.columns)
    && (forall k, l | k in s && l in s && k != l :: s[k].column != s[l].column)
    && (forall c | c in t.columns :: |t.columns[c].cells| == t.rows)
  }

  ghost function Image(s: Snapshot): set<string> { set k | k in s :: s[k].column }

  /** Columns of the table that the snapshot does not know. */
  ghost function Extras(t: Table, s: Snapshot): set<string> { t.columns.Keys - Image(s) }

  ghost predicate IsBefore(was: Snapshot, key: string, c: string) { key in was && was[key].column == c }

  ghost predicate IsAfter(e: Engine, d: TableDef, was: Snapshot, key: string, c: string) {
    || (key in d.fields && d.fields[key].column == c)
    || (e.sqlite && IsBefore(was, key, c))
  }

  /** Column `c` exists once `n` keys are done. */
  ghost predicate Occupied(e: Engine, t: Table, d: TableDef, was: Snapshot, keys: seq<string>, n: nat, c: string)
    requires n <= |keys|
  {
    || c in Extras(t, was)
    || (exists j :: 0 <= j < n && IsAfter(e, d, was, keys[j], c))
    || (exists j :: n <= j < |keys| && IsBefore(was, keys[j], c))
  }

  /** Key `n` needs a column name that is taken when its turn comes. */
  ghost predicate Clash(e: Engine, t: Table, d: TableDef, was: Snapshot, keys: seq<string>, n: nat)
    requires n < |keys|
  {
    var key := keys[n];
    || (key in d.fields && (key !in was || Renamed(key, d, was))
       && Occupied(e, t, d, was, keys, n, d.fields[key].column))
    || (Rebuilt(e, key, d, was) && Occupied(e, t, d, was, keys, n, Tmp(key)))
  }

  ghost predicate NoClash(e: Engine, t: Table, d: TableDef, was: Snapshot, keys: seq<string>, n: nat)
    requires n <= |keys|
  {
    forall i | 0 <= i < n :: !Clash(e, t, d, was, keys, i)
  }

  /** The column that must hold the values of `key` after its turn: fresh for a new key, the old
      values cast to the new type where the column was rebuilt, the old column otherwise. */
  ghost function Target(e: Engine, t: Table, d: TableDef, was: Snapshot, key: string): Column
    requires key in d.fields && d.aux.Keys == d.fields.Keys && Consistent(t, was)
  {
    var sql := d.aux[key];
    if key !in was then Column(sql, seq(t.rows, _ => e.blank(sql)))
    else
      var column := t.columns[was[key].column];
      if Renamed(key, d, was) then Column(sql, Converted(e, sql, column.cells))
      else if Rebuilt(e, key, d, was) then Column(sql, Converted(e, sql, Converted(e, sql, column.cells)))
      else column
  }

  ghost predicate ColumnsAre(e: Engine, t: Table, d: TableDef, was: Snapshot, keys: seq<string>, n: nat,
                             columns: map<string, Column>)
    requires n <= |keys|
  {
    forall c :: c in columns <==> Occupied(e, t, d, was, keys, n, c)
  }

  ghost predicate Moved(e: Engine, t: Table, d: TableDef, was: Snapshot, key: string, columns: map<string, Column>)
    requires key in d.fields && d.aux.Keys == d.fields.Keys && Consistent(t, was)
  {
    d.fields[key].column in columns && columns[d.fields[key].column] == Target(e, t, d, was, key)
  }

  ghost predicate Untouched(t: Table, c: string, columns: map<string, Column>) {
    c in columns && c in t.columns && columns[c] == t.columns[c]
  }

  /** On SQLite the old column of a renamed or dropped key stays behind. */
  ghost predicate LeftBehind(e: Engine, d: TableDef, was: Snapshot, key: string) {
    e.sqlite && key in was && (key !in d.fields || Renamed(key, d, was))
  }

  ghost predicate ContentsAre(e: Engine, t: Table, d: TableDef, was: Snapshot, keys: seq<string>, n: nat,
                              columns: map<string, Column>)
    requires n <= |keys| && Keyed(keys, d, was) && Consistent(t, was)
  {
    && (forall j | 0 <= j < n && keys[j] in d.fields :: Moved(e, t, d, was, keys[j], columns))
    && (forall j | 0 <= j < |keys| && keys[j] in was && (n <= j || LeftBehind(e, d, was, keys[j])) ::
          Untouched(t, was[keys[j]].column, columns))
    && (forall c | c in Extras(t, was) :: Untouched(t, c, columns))
  }

  /** The table after the first `n` keys: which columns it has and what each holds. */
  ghost predicate Boundary(e: Engine, t: Table, d: TableDef, was: Snapshot, keys: seq<string>, n: nat, now: Table)
    requires n <= |keys| && Keyed(keys, d, was) && Consistent(t, was)
  {
    && now.rows == t.rows
    && ColumnsAre(e, t, d, was, keys, n, now.columns)
    && ContentsAre(e, t, d, was, keys, n, now.columns)
  }

  // ----- One key

  ghost predicate Arrives(key: string, d: TableDef, was: Snapshot) {
    key in d.fields && (key !in was || Renamed(key, d, was))
  }

  ghost predicate Leaves(e: Engine, key: string, d: TableDef, was: Snapshot) {
    !e.sqlite && key in was && (key !in d.fields || Renamed(key, d, was))
  }

  /** The columns after the turn of `key`, from those before it. */
  ghost function Effect(e: Engine, t: Table, d: TableDef, was: Snapshot, key: string,
                        now: map<string, Column>): map<string, Column>
    requires d.aux.Keys == d.fields.Keys && Consistent(t, was)
  {
    var kept := if Leaves(e, key, d, was) then now - {was[key].column} else now;
    if Arrives(key, d, was) || Rebuilt(e, key, d, was)
    then kept[d.fields[key].column := Target(e, t, d, was, key)]
    else kept
  }

  lemma ConvertedFresh(e: Engine, sql: string, cells: seq<Cell>, name: string, from: string, u: Table)
    requires name !in u.columns && from in u.columns && u.columns[from].cells == cells
    ensures ApplyAll(e, u, [Add(name, sql), Copy(name, from)])
            == Some(u.(columns := u.columns[name := Column(sql, Converted(e, sql, cells))]))
  {
    var u1 := u.(columns := u.columns[name := Column(sql, seq(u.rows, _ => e.blank(sql)))]);
    assert Apply(e, u, Add(name, sql)) == Some(u1);
    var u2 := u.(columns := u.columns[name := Column(sql, Converted(e, sql, cells))]);
    assert u1.columns[name := Column(sql, Converted(e, sql, cells))] == u2.columns;
    assert Apply(e, u1, Copy(name, from)) == Some(u2);
    assert [Add(name, sql), Copy(name, from)][1..] == [Copy(name, from)];
    assert ApplyAll(e, u1, [Copy(name, from)]) == ApplyAll(e, u2, []);
  }

  lemma {:induction false} ApplyAppend(e: Engine, t: Table, a: seq<Statement>, b: seq<Statement>)
    ensures ApplyAll(e, t, a + b) == match ApplyAll(e, t, a) case None => None case Some(u) => ApplyAll(e, u, b)
    decreases |a|
  {
    if a == [] {
      assert a + b == b;
    } else {
      assert (a + b)[1..] == a[1..] + b;
      if Apply(e, t, a[0]).Some? {
        ApplyAppend(e, Apply(e, t, a[0]).value, a[1..], b);
      }
    }
  }

  /** ADD, UPDATE, DROP: the column moves to a free name, its values converted. */
  lemma MoveColumn(e: Engine, u: Table, to: string, from: string, sql: string)
    requires to !in u.columns && from in u.columns
    ensures ApplyAll(e, u, [Add(to, sql), Copy(to, from), Drop(from)])
            == Some(u.(columns := u.columns[to := Column(sql, Converted(e, sql, u.columns[from].cells))] - {from}))
  {
    ConvertedFresh(e, sql, u.columns[from].cells, to, from, u);
    ApplyAppend(e, u, [Add(to, sql), Copy(to, from)], [Drop(from)]);
    assert [Add(to, sql), Copy(to, from), Drop(from)] == [Add(to, sql), Copy(to, from)] + [Drop(from)];
    var u2 := u.(columns := u.columns[to := Column(sql, Converted(e, sql, u.columns[from].cells))]);
    assert ApplyAll(e, u2, [Drop(from)]) == ApplyAll(e, u2.(columns := u2.columns - {from}), []);
  }

  lemma KeyEffect(e: Engine, t: Table, d: TableDef, was: Snapshot, key: string, u: Table)
    requires d.aux.Keys == d.fields.Keys && Consistent(t, was) && u.rows == t.rows
    requires key in d.fields || key in was
    requires key in was ==> was[key].column in u.columns && u.columns[was[key].column] == t.columns[was[key].column]
    requires Arrives(key, d, was) ==> d.fields[key].column !in u.columns
    requires Rebuilt(e, key, d, was) ==> Tmp(key) !in u.columns
    ensures ApplyAll(e, u, KeyStatements(e, key, d, was))
            == Some(u.(columns := Effect(e, t, d, was, key, u.columns)))
  {
    var result := u.(columns := Effect(e, t, d, was, key, u.columns));
    if key !in was {
      assert ApplyAll(e, u, KeyStatements(e, key, d, was)) == ApplyAll(e, result, []);
    } else if Renamed(key, d, was) {
      var to, from, sql := d.fields[key].column, was[key].column, d.aux[key];
      if e.sqlite {
        ConvertedFresh(e, sql, u.columns[from].cells, to, from, u);
      } else {
        MoveColumn(e, u, to, from, sql);
        assert u.columns[to := Target(e, t, d, was, key)] - {from}
               == (u.columns - {from})[to := Target(e, t, d, was, key)];
      }
    } else if Rebuilt(e, key, d, was) {
      RebuildEffect(e, u, key, was[key].column, d.aux[key]);
    } else if key !in d.fields && !e.sqlite {
      assert ApplyAll(e, u, [Drop(was[key].column)]) == ApplyAll(e, result, []);
    }
  }

  /** The six statements: through the temporary column and back under the same name. */
  lemma RebuildEffect(e: Engine, u: Table, key: string, name: string, sql: string)
    requires name in u.columns && Tmp(key) !in u.columns
    ensures ApplyAll(e, u, [Add(Tmp(key), sql), Copy(Tmp(key), name), Drop(name),
                            Add(name, sql), Copy(name, Tmp(key)), Drop(Tmp(key))])
            == Some(u.(columns :=
                         u.columns[name := Column(sql, Converted(e, sql, Converted(e, sql, u.columns[name].cells)))]))
  {
    var tmp := Tmp(key);
    var out := [Add(tmp, sql), Copy(tmp, name), Drop(name)];
    var back := [Add(name, sql), Copy(name, tmp), Drop(tmp)];
    assert [Add(tmp, sql), Copy(tmp, name), Drop(name), Add(name, sql), Copy(name, tmp), Drop(tmp)] == out + back;
    var once := Column(sql, Converted(e, sql, u.columns[name].cells));
    var mid := u.(columns := u.columns[tmp := once] - {name});
    MoveColumn(e, u, tmp, name, sql);
    MoveColumn(e, mid, name, tmp, sql);
    ApplyAppend(e, u, out, back);
    var twice := Column(sql, Converted(e, sql, once.cells));
    assert mid.columns[name := twice] - {tmp} == u.columns[name := twice];
  }

  // ----- Every boundary

  /** `c` is there around the turn of key `n`, whatever that key does. */
  ghost predicate Elsewhere(e: Engine, t: Table, d: TableDef, was: Snapshot, keys: seq<string>, n: nat, c: string)
    requires n < |keys|
  {
    || c in Extras(t, was)
    || (exists j :: 0 <= j < n && IsAfter(e, d, was, keys[j], c))
    || (exists j :: n < j < |keys| && IsBefore(was, keys[j], c))
  }

  lemma OccupiedAround(e: Engine, t: Table, d: TableDef, was: Snapshot, keys: seq<string>, n: nat, c: string)
    requires n < |keys|
    ensures Occupied(e, t, d, was, keys, n, c) <==> Elsewhere(e, t, d, was, keys, n, c) || IsBefore(was, keys[n], c)
    ensures Occupied(e, t, d, was, keys, n + 1, c)
            <==> Elsewhere(e, t, d, was, keys, n, c) || IsAfter(e, d, was, keys[n], c)
  {
  }

  lemma AfterIsNotBefore(e: Engine, t: Table, d: TableDef, was: Snapshot, keys: seq<string>, i: nat, m: nat, c: string)
    requires Keyed(keys, d, was) && Consistent(t, was)
    requires i < m < |keys| && !Clash(e, t, d, was, keys, i)
    requires IsAfter(e, d, was, keys[i], c)
    ensures !IsBefore(was, keys[m], c)
  {
    if IsBefore(was, keys[m], c) && !IsBefore(was, keys[i], c) {
      assert Occupied(e, t, d, was, keys, i, c);
    }
  }

  lemma NothingElsewhere(e: Engine, t: Table, d: TableDef, was: Snapshot, keys: seq<string>, n: nat, c: string)
    requires Keyed(keys, d, was) && Consistent(t, was)
    requires n < |keys| && NoClash(e, t, d, was, keys, n + 1)
    requires IsBefore(was, keys[n], c) || IsAfter(e, d, was, keys[n], c)
    ensures !Elsewhere(e, t, d, was, keys, n, c)
  {
    if IsBefore(was, keys[n], c) {
      forall j | 0 <= j < n ensures !IsAfter(e, d, was, keys[j], c) {
        if IsAfter(e, d, was, keys[j], c) {
          AfterIsNotBefore(e, t, d, was, keys, j, n, c);
        }
      }
      assert c !in Extras(t, was);
    } else {
      assert Arrives(keys[n], d, was);
      OccupiedAround(e, t, d, was, keys, n, c);
      assert !Clash(e, t, d, was, keys, n);
    }
  }

  lemma BoundaryStart(e: Engine, t: Table, d: TableDef, was: Snapshot, keys: seq<string>)
    requires Keyed(keys, d, was) && Consistent(t, was) && Covers(keys, was.Keys)
    ensures Boundary(e, t, d, was, keys, 0, t)
  {
    forall c ensures c in t.columns <==> Occupied(e, t, d, was, keys, 0, c) {
      if c in Image(was) {
        var k :| k in was && was[k].column == c;
        assert Listed(keys, k);
        var j :| 0 <= j < |keys| && keys[j] == k;
        assert IsBefore(was, keys[j], c);
      }
    }
  }

  /** A column that key `n` has nothing to do with is the same after its turn. */
  lemma EffectElsewhere(e: Engine, t: Table, d: TableDef, was: Snapshot, keys: seq<string>, n: nat,
                        columns: map<string, Column>, c: string)
    requires Keyed(keys, d, was) && Consistent(t, was)
    requires n < |keys| && NoClash(e, t, d, was, keys, n + 1) && Elsewhere(e, t, d, was, keys, n, c)
    ensures c in Effect(e, t, d, was, keys[n], columns) <==> c in columns
    ensures c in columns ==> Effect(e, t, d, was, keys[n], columns)[c] == columns[c]
  {
    if IsBefore(was, keys[n], c) || IsAfter(e, d, was, keys[n], c) {
      NothingElsewhere(e, t, d, was, keys, n, c);
    }
  }

  lemma StepColumns(e: Engine, t: Table, d: TableDef, was: Snapshot, keys: seq<string>, n: nat,
                    columns: map<string, Column>)
    requires Keyed(keys, d, was) && Consistent(t, was)
    requires n < |keys| && NoClash(e, t, d, was, keys, n + 1) && ColumnsAre(e, t, d, was, keys, n, columns)
    ensures ColumnsAre(e, t, d, was, keys, n + 1, Effect(e, t, d, was, keys[n], columns))
  {
    forall c ensures c in Effect(e, t, d, was, keys[n], columns) <==> Occupied(e, t, d, was, keys, n + 1, c) {
      assert c in columns <==> Occupied(e, t, d, was, keys, n, c);
      OccupiedAround(e, t, d, was, keys, n, c);
      if Elsewhere(e, t, d, was, keys, n, c) {
        EffectElsewhere(e, t, d, was, keys, n, columns, c);
      } else {
        OwnColumns(e, t, d, was, keys[n], columns, c);
      }
    }
  }

  lemma OwnColumns(e: Engine, t: Table, d: TableDef, was: Snapshot, key: string, columns: map<string, Column>,
                   c: string)
    requires d.aux.Keys == d.fields.Keys && Consistent(t, was)
    requires c in columns <==> IsBefore(was, key, c)
    ensures c in Effect(e, t, d, was, key, columns) <==> IsAfter(e, d, was, key, c)
  {
  }

  lemma StepContents(e: Engine, t: Table, d: TableDef, was: Snapshot, keys: seq<string>, n: nat,
                     columns: map<string, Column>)
    requires Keyed(keys, d, was) && Consistent(t, was)
    requires n < |keys| && NoClash(e, t, d, was, keys, n + 1) && ContentsAre(e, t, d, was, keys, n, columns)
    ensures ContentsAre(e, t, d, was, keys, n + 1, Effect(e, t, d, was, keys[n], columns))
  {
    var after := Effect(e, t, d, was, keys[n], columns);
    forall j | 0 <= j < n + 1 && keys[j] in d.fields ensures Moved(e, t, d, was, keys[j], after) {
      if j < n {
        var c := d.fields[keys[j]].column;
        assert IsAfter(e, d, was, keys[j], c);
        EffectElsewhere(e, t, d, was, keys, n, columns, c);
      } else if keys[n] in was {
        assert Untouched(t, was[keys[n]].column, columns);
      }
    }
    forall j | 0 <= j < |keys| && keys[j] in was && (n + 1 <= j || LeftBehind(e, d, was, keys[j]))
      ensures Untouched(t, was[keys[j]].column, after)
    {
      var c := was[keys[j]].column;
      assert IsBefore(was, keys[j], c);
      assert Untouched(t, c, columns);
      if j != n {
        assert j < n ==> IsAfter(e, d, was, keys[j], c);
        EffectElsewhere(e, t, d, was, keys, n, columns, c);
      }
    }
    forall c | c in Extras(t, was) ensures Untouched(t, c, after) {
      EffectElsewhere(e, t, d, was, keys, n, columns, c);
    }
  }

  lemma BoundaryStep(e: Engine, t: Table, d: TableDef, was: Snapshot, keys: seq<string>, n: nat, u: Table)
    requires Keyed(keys, d, was) && Consistent(t, was)
    requires n < |keys| && NoClash(e, t, d, was, keys, n + 1) && Boundary(e, t, d, was, keys, n, u)
    ensures ApplyAll(e, u, KeyStatements(e, keys[n], d, was))
            == Some(Table(t.rows, Effect(e, t, d, was, keys[n], u.columns)))
    ensures Boundary(e, t, d, was, keys, n + 1, Table(t.rows, Effect(e, t, d, was, keys[n], u.columns)))
  {
    StepColumns(e, t, d, was, keys, n, u.columns);
    StepContents(e, t, d, was, keys, n, u.columns);
    assert !Clash(e, t, d, was, keys, n);
    if keys[n] in was {
      assert Untouched(t, was[keys[n]].column, u.columns);
    }
    KeyEffect(e, t, d, was, keys[n], u);
  }

  lemma RunStep(e: Engine, t: Table, d: TableDef, was: Snapshot, keys: seq<string>, n: nat)
    requires n < |keys| && Keyed(keys, d, was)
    ensures RunKeys(e, t, d, was, keys, n) == None ==> RunKeys(e, t, d, was, keys, n + 1) == None
    ensures RunKeys(e, t, d, was, keys, n).Some? ==>
              RunKeys(e, t, d, was, keys, n + 1)
              == ApplyAll(e, RunKeys(e, t, d, was, keys, n).value, KeyStatements(e, keys[n], d, was))
  {
  }

  /** `RunKeys` succeeded and is at a boundary. */
  ghost predicate RunsTo(e: Engine, t: Table, d: TableDef, was: Snapshot, keys: seq<string>, n: nat)
    requires n <= |keys| && Keyed(keys, d, was) && Consistent(t, was)
  {
    match RunKeys(e, t, d, was, keys, n)
    case None => false
    case Some(u) => Boundary(e, t, d, was, keys, n, u)
  }

  lemma RunsOn(e: Engine, t: Table, d: TableDef, was: Snapshot, keys: seq<string>, n: nat, u: Table)
    requires Keyed(keys, d, was) && Consistent(t, was)
    requires n < |keys| && RunKeys(e, t, d, was, keys, n) == Some(u)
    requires Boundary(e, t, d, was, keys, n, u) && NoClash(e, t, d, was, keys, n + 1)
    ensures RunsTo(e, t, d, was, keys, n + 1)
  {
    var next := Table(t.rows, Effect(e, t, d, was, keys[n], u.columns));
    BoundaryStep(e, t, d, was, keys, n, u);
    RunStep(e, t, d, was, keys, n);
    assert RunKeys(e, t, d, was, keys, n + 1) == Some(next);
    assert Boundary(e, t, d, was, keys, n + 1, next);
  }

  lemma RunStops(e: Engine, t: Table, d: TableDef, was: Snapshot, keys: seq<string>, n: nat, u: Table)
    requires Keyed(keys, d, was) && Consistent(t, was)
    requires n < |keys| && RunKeys(e, t, d, was, keys, n) == Some(u)
    requires Boundary(e, t, d, was, keys, n, u) && Clash(e, t, d, was, keys, n)
    ensures RunKeys(e, t, d, was, keys, n + 1) == None
  {
    RunStep(e, t, d, was, keys, n);
    ClashRejected(e, t, d, was, keys, n, u);
  }

  /** Every statement is applicable when it runs exactly when no key needs a name that is taken, and
      then every boundary is as described. */
  lemma {:induction false} ApplicableIffNoClash(e: Engine, t: Table, d: TableDef, was: Snapshot, keys: seq<string>,
                                                n: nat)
    requires Keyed(keys, d, was) && Consistent(t, was) && Covers(keys, was.Keys) && n <= |keys|
    ensures RunKeys(e, t, d, was, keys, n).Some? <==> NoClash(e, t, d, was, keys, n)
    ensures NoClash(e, t, d, was, keys, n) ==> RunsTo(e, t, d, was, keys, n)
  {
    if n == 0 {
      BoundaryStart(e, t, d, was, keys);
    } else {
      var m := n - 1;
      ApplicableIffNoClash(e, t, d, was, keys, m);
      NoClashStep(e, t, d, was, keys, m);
      if NoClash(e, t, d, was, keys, m) {
        var u := RunKeys(e, t, d, was, keys, m).value;
        if Clash(e, t, d, was, keys, m) {
          RunStops(e, t, d, was, keys, m, u);
        } else {
          RunsOn(e, t, d, was, keys, m, u);
        }
      } else {
        RunStep(e, t, d, was, keys, m);
      }
    }
  }

  lemma NoClashStep(e: Engine, t: Table, d: TableDef, was: Snapshot, keys: seq<string>, n: nat)
    requires n < |keys|
    ensures NoClash(e, t, d, was, keys, n + 1) <==>
            NoClash(e, t, d, was, keys, n) && !Clash(e, t, d, was, keys, n)
  {
  }

  lemma ClashRejected(e: Engine, t: Table, d: TableDef, was: Snapshot, keys: seq<string>, n: nat, u: Table)
    requires Keyed(keys, d, was) && Consistent(t, was)
    requires n < |keys| && Clash(e, t, d, was, keys, n) && Boundary(e, t, d, was, keys, n, u)
    ensures ApplyAll(e, u, KeyStatements(e, keys[n], d, was)) == None
  {
    assert Apply(e, u, KeyStatements(e, keys[n], d, was)[0]) == None;
  }

  // ----- The snapshot

  /** Where the snapshot stands on `key` when `done` says whether its turn is over. */
  ghost predicate SnapshotFor(e: Engine, d: TableDef, was: Snapshot, key: string, done: bool, s: Snapshot) {
    if done && key in d.fields then key in s && s[key] == d.fields[key]
    else if done && !e.sqlite then key !in s
    else (key in s <==> key in was) && (key in s ==> s[key] == was[key])
  }

  /** The snapshot is the new definition on the keys done and the old one on the rest; only SQLite
      keeps the keys that the new definition drops. */
  lemma {:induction false} SnapshotAtBoundary(e: Engine, d: TableDef, was: Snapshot, keys: seq<string>, n: nat)
    requires n <= |keys| && Keyed(keys, d, was)
    ensures forall k :: SnapshotFor(e, d, was, k, k in keys[..n], SnapshotAt(e, d, was, keys, n))
  {
    if n > 0 {
      SnapshotAtBoundary(e, d, was, keys, n - 1);
      forall k ensures SnapshotFor(e, d, was, k, k in keys[..n], SnapshotAt(e, d, was, keys, n)) {
        assert k in keys[..n] <==> k in keys[..n - 1] || k == keys[n - 1];
        assert SnapshotFor(e, d, was, k, k in keys[..n - 1], SnapshotAt(e, d, was, keys, n - 1));
      }
    }
  }

  /** A snapshot column at boundary `n`, and the key whose turn put or left it there. */
  lemma SnapshotColumn(e: Engine, d: TableDef, was: Snapshot, keys: seq<string>, n: nat, key: string) returns (j: nat)
    requires n <= |keys| && Keyed(keys, d, was) && Covers(keys, was.Keys)
    requires key in SnapshotAt(e, d, was, keys, n)
    ensures j < |keys| && keys[j] == key
    ensures j < n ==> IsAfter(e, d, was, key, SnapshotAt(e, d, was, keys, n)[key].column)
    ensures n <= j ==> IsBefore(was, key, SnapshotAt(e, d, was, keys, n)[key].column)
  {
    SnapshotAtBoundary(e, d, was, keys, n);
    assert SnapshotFor(e, d, was, key, key in keys[..n], SnapshotAt(e, d, was, keys, n));
    assert forall i | 0 <= i < n :: keys[i] in keys[..n];
    if key in keys[..n] {
      j :| 0 <= j < n && keys[j] == key;
    } else {
      assert Listed(keys, key);
      j :| 0 <= j < |keys| && keys[j] == key;
    }
  }

  lemma ColumnsDiffer(e: Engine, t: Table, d: TableDef, was: Snapshot, keys: seq<string>, n: nat, i: nat, j: nat,
                      c: string)
    requires Keyed(keys, d, was) && Consistent(t, was)
    requires n <= |keys| && NoClash(e, t, d, was, keys, n) && i < j < |keys|
    requires if i < n then IsAfter(e, d, was, keys[i], c) else IsBefore(was, keys[i], c)
    ensures j < n ==> !IsAfter(e, d, was, keys[j], c)
    ensures n <= j ==> !IsBefore(was, keys[j], c)
  {
    if i < n {
      AfterIsNotBefore(e, t, d, was, keys, i, j, c);
      if j < n && IsAfter(e, d, was, keys[j], c) {
        NothingElsewhere(e, t, d, was, keys, j, c);
        assert Elsewhere(e, t, d, was, keys, j, c);
      }
    }
  }

  /** Columns, contents and snapshot agree at every boundary. */
  lemma BoundaryConsistent(e: Engine, t: Table, d: TableDef, was: Snapshot, keys: seq<string>, n: nat, u: Table)
    requires Keyed(keys, d, was) && Consistent(t, was) && Covers(keys, was.Keys)
    requires n <= |keys| && NoClash(e, t, d, was, keys, n) && Boundary(e, t, d, was, keys, n, u)
    ensures Consistent(u, SnapshotAt(e, d, was, keys, n))
  {
    var s := SnapshotAt(e, d, was, keys, n);
    forall k | k in s ensures s[k].column in u.columns {
      SnapshotColumnExists(e, t, d, was, keys, n, u, k);
    }
    forall k, l | k in s && l in s && k != l ensures s[k].column != s[l].column {
      SnapshotColumnsDiffer(e, t, d, was, keys, n, k, l);
    }
    forall c | c in u.columns ensures |u.columns[c].cells| == u.rows {
      BoundaryCells(e, t, d, was, keys, n, u.columns, c);
    }
  }

  lemma SnapshotColumnExists(e: Engine, t: Table, d: TableDef, was: Snapshot, keys: seq<string>, n: nat, u: Table,
                             k: string)
    requires Keyed(keys, d, was) && Consistent(t, was) && Covers(keys, was.Keys)
    requires n <= |keys| && Boundary(e, t, d, was, keys, n, u) && k in SnapshotAt(e, d, was, keys, n)
    ensures SnapshotAt(e, d, was, keys, n)[k].column in u.columns
  {
    var j := SnapshotColumn(e, d, was, keys, n, k);
    assert Occupied(e, t, d, was, keys, n, SnapshotAt(e, d, was, keys, n)[k].column);
  }

  lemma SnapshotColumnsDiffer(e: Engine, t: Table, d: TableDef, was: Snapshot, keys: seq<string>, n: nat, k: string,
                              l: string)
    requires Keyed(keys, d, was) && Consistent(t, was) && Covers(keys, was.Keys)
    requires n <= |keys| && NoClash(e, t, d, was, keys, n) && k != l
    requires k in SnapshotAt(e, d, was, keys, n) && l in SnapshotAt(e, d, was, keys, n)
    ensures SnapshotAt(e, d, was, keys, n)[k].column != SnapshotAt(e, d, was, keys, n)[l].column
  {
    var i := SnapshotColumn(e, d, was, keys, n, k);
    var j := SnapshotColumn(e, d, was, keys, n, l);
    var c := SnapshotAt(e, d, was, keys, n)[k].column;
    if c == SnapshotAt(e, d, was, keys, n)[l].column {
      if i < j {
        ColumnsDiffer(e, t, d, was, keys, n, i, j, c);
      } else {
        ColumnsDiffer(e, t, d, was, keys, n, j, i, c);
      }
    }
  }

  lemma BoundaryCells(e: Engine, t: Table, d: TableDef, was: Snapshot, keys: seq<string>, n: nat,
                      columns: map<string, Column>, c: string)
    requires Keyed(keys, d, was) && Consistent(t, was)
    requires n <= |keys| && Occupied(e, t, d, was, keys, n, c) && ContentsAre(e, t, d, was, keys, n, columns)
    ensures c in columns && |columns[c].cells| == t.rows
  {
    if c in Extras(t, was) {
      assert Untouched(t, c, columns);
    } else if j :| 0 <= j < n && IsAfter(e, d, was, keys[j], c) {
      if keys[j] in d.fields && d.fields[keys[j]].column == c {
        assert Moved(e, t, d, was, keys[j], columns);
      } else {
        assert LeftBehind(e, d, was, keys[j]);
        assert Untouched(t, c, columns);
      }
    } else {
      var j :| n <= j < |keys| && IsBefore(was, keys[j], c);
      assert Untouched(t, was[keys[j]].column, columns);
    }
  }

  // ----- The whole run

  lemma SnapshotDone(e: Engine, d: TableDef, was: Snapshot, s: Snapshot)
    requires forall k :: SnapshotFor(e, d, was, k, true, s)
    ensures s == if e.sqlite then was + d.fields else d.fields
  {
    var expected := if e.sqlite then was + d.fields else d.fields;
    forall k ensures (k in s <==> k in expected) && (k in s ==> s[k] == expected[k]) {
      assert SnapshotFor(e, d, was, k, true, s);
    }
  }

  lemma SnapshotAtEnd(e: Engine, d: TableDef, was: Snapshot, keys: seq<string>)
    requires Keyed(keys, d, was) && Covers(keys, was.Keys + d.fields.Keys)
    ensures SnapshotAt(e, d, was, keys, |keys|) == if e.sqlite then was + d.fields else d.fields
  {
    var s := SnapshotAt(e, d, was, keys, |keys|);
    forall k ensures SnapshotFor(e, d, was, k, true, s) {
      SnapshotAtBoundary(e, d, was, keys, |keys|);
      assert SnapshotFor(e, d, was, k, k in keys[..|keys|], s);
      assert keys[..|keys|] == keys;
      assert k in was.Keys + d.fields.Keys ==> Listed(keys, k);
    }
    SnapshotDone(e, d, was, s);
  }

  lemma BoundaryAtEnd(e: Engine, t: Table, d: TableDef, was: Snapshot, keys: seq<string>, u: Table)
    requires !e.sqlite && Keyed(keys, d, was) && Enumerates(keys, d.fields.Keys + was.Keys) && Consistent(t, was)
    requires Boundary(e, t, d, was, keys, |keys|, u)
    ensures u.columns.Keys == Extras(t, was) + Image(d.fields)
    ensures forall k | k in d.fields :: Moved(e, t, d, was, k, u.columns)
    ensures forall c | c in Extras(t, was) :: Untouched(t, c, u.columns)
  {
    forall k | k in d.fields ensures Moved(e, t, d, was, k, u.columns) {
      assert Listed(keys, k);
      var j :| 0 <= j < |keys| && keys[j] == k;
      assert Moved(e, t, d, was, keys[j], u.columns);
    }
    forall c ensures c in u.columns <==> c in Extras(t, was) || c in Image(d.fields) {
      if c in Image(d.fields) {
        var k :| k in d.fields && d.fields[k].column == c;
        assert Moved(e, t, d, was, k, u.columns);
      }
      assert c in u.columns <==> Occupied(e, t, d, was, keys, |keys|, c);
    }
  }

  // ----- Stopping at a boundary and defining the table again

  /** A run stopped after `n` keys, and the key order of the run that follows. */
  ghost predicate Stopped(e: Engine, t: Table, d: TableDef, was: Snapshot, keys: seq<string>, n: nat,
                          u: Table, s: Snapshot, again: seq<string>) {
    && !e.sqlite
    && KeyOrder(keys, d, was) && Keyed(keys, d, was) && Consistent(t, was)
    && NoClash(e, t, d, was, keys, |keys|)
    && n <= |keys| && Boundary(e, t, d, was, keys, n, u)
    && s == SnapshotAt(e, d, was, keys, n) && Consistent(u, s)
    && KeyOrder(again, d, s) && Keyed(again, d, s)
  }

  lemma AllKeysListed(keys: seq<string>, d: TableDef, was: Snapshot)
    requires KeyOrder(keys, d, was)
    ensures Covers(keys, was.Keys + d.fields.Keys) && Covers(keys, was.Keys)
  {
  }

  lemma StoppedSnapshot(e: Engine, t: Table, d: TableDef, was: Snapshot, keys: seq<string>, n: nat,
                        u: Table, s: Snapshot, again: seq<string>, key: string) returns (done: bool)
    requires Stopped(e, t, d, was, keys, n, u, s, again)
    ensures SnapshotFor(e, d, was, key, done, s)
    ensures done ==> exists j :: 0 <= j < n && keys[j] == key
    ensures !done ==> forall j | 0 <= j < n :: keys[j] != key
  {
    SnapshotAtBoundary(e, d, was, keys, n);
    done := key in keys[..n];
    assert SnapshotFor(e, d, was, key, done, s);
    assert forall j | 0 <= j < n :: keys[j] in keys[..n];
  }

  lemma StoppedExtras(e: Engine, t: Table, d: TableDef, was: Snapshot, keys: seq<string>, n: nat,
                      u: Table, s: Snapshot, again: seq<string>)
    requires Stopped(e, t, d, was, keys, n, u, s, again)
    ensures Extras(u, s) == Extras(t, was)
  {
    AllKeysListed(keys, d, was);
    forall c ensures c in Extras(u, s) <==> c in Extras(t, was) {
      assert c in u.columns <==> Occupied(e, t, d, was, keys, n, c);
      if c in Extras(t, was) && c in Image(s) {
        var k :| k in s && s[k].column == c;
        var j := SnapshotColumn(e, d, was, keys, n, k);
        if j < n {
          NothingElsewhere(e, t, d, was, keys, j, c);
        }
      }
      if c in Extras(u, s) && c !in Extras(t, was) {
        StoppedColumn(e, t, d, was, keys, n, u, s, again, c);
      }
    }
  }

  lemma StoppedColumn(e: Engine, t: Table, d: TableDef, was: Snapshot, keys: seq<string>, n: nat,
                      u: Table, s: Snapshot, again: seq<string>, c: string)
    requires Stopped(e, t, d, was, keys, n, u, s, again)
    requires c in u.columns && c !in Extras(t, was)
    ensures c in Image(s)
  {
    assert Occupied(e, t, d, was, keys, n, c);
    if j :| 0 <= j < n && IsAfter(e, d, was, keys[j], c) {
      var done := StoppedSnapshot(e, t, d, was, keys, n, u, s, again, keys[j]);
      assert s[keys[j]].column == c;
    } else {
      var j :| n <= j < |keys| && IsBefore(was, keys[j], c);
      var done := StoppedSnapshot(e, t, d, was, keys, n, u, s, again, keys[j]);
      assert s[keys[j]].column == c;
    }
  }

  lemma OrderShared(keys: seq<string>, again: seq<string>, d: TableDef, m: nat)
    requires d.order <= keys && d.order <= again && m < |again| && Enumerates(d.order, d.fields.Keys)
    requires again[m] in d.fields && forall i, j | 0 <= i < j < |again| :: again[i] != again[j]
    ensures m < |d.order| && m < |keys| && forall p | 0 <= p <= m :: keys[p] == again[p]
  {
    assert forall p | 0 <= p < |d.order| :: keys[p] == d.order[p] && again[p] == d.order[p];
    assert Listed(d.order, again[m]);
    var i :| 0 <= i < |d.order| && d.order[i] == again[m];
    assert again[i] == d.order[i];
  }

  /** A name taken when the second run reaches a new-side key was taken in the first run too. */
  lemma StoppedOccupied(e: Engine, t: Table, d: TableDef, was: Snapshot, keys: seq<string>, n: nat,
                        u: Table, s: Snapshot, again: seq<string>, m: nat, c: string)
    requires Stopped(e, t, d, was, keys, n, u, s, again)
    requires n <= m < |again| && m < |keys| && keys[m] == again[m] && again[m] in d.fields
    requires Occupied(e, u, d, s, again, m, c)
    ensures Occupied(e, t, d, was, keys, m, c)
  {
    StoppedExtras(e, t, d, was, keys, n, u, s, again);
    OrderShared(keys, again, d, m);
    assert forall p | 0 <= p < m :: keys[p] == again[p];
    if c in Extras(u, s) {
    } else if j :| 0 <= j < m && IsAfter(e, d, s, again[j], c) {
      OrderShared(keys, again, d, j);
      assert IsAfter(e, d, was, keys[j], c);
    } else {
      var j :| m <= j < |again| && IsBefore(s, again[j], c);
      AllKeysListed(keys, d, was);
      var p := SnapshotColumn(e, d, was, keys, n, again[j]);
    }
  }

  lemma StoppedNoClash(e: Engine, t: Table, d: TableDef, was: Snapshot, keys: seq<string>, n: nat,
                       u: Table, s: Snapshot, again: seq<string>)
    requires Stopped(e, t, d, was, keys, n, u, s, again)
    ensures NoClash(e, u, d, s, again, |again|)
  {
    forall m | 0 <= m < |again| ensures !Clash(e, u, d, s, again, m) {
      if Clash(e, u, d, s, again, m) {
        var key := again[m];
        var done := StoppedSnapshot(e, t, d, was, keys, n, u, s, again, key);
        OrderShared(keys, again, d, m);
        assert n <= m;
        var c := if Rebuilt(e, key, d, s) then Tmp(key) else d.fields[key].column;
        StoppedOccupied(e, t, d, was, keys, n, u, s, again, m, c);
        assert Clash(e, t, d, was, keys, m);
      }
    }
  }

  lemma SameTarget(e: Engine, t: Table, u: Table, d: TableDef, was: Snapshot, s: Snapshot, key: string, done: bool)
    requires !e.sqlite && d.aux.Keys == d.fields.Keys && key in d.fields && u.rows == t.rows
    requires Consistent(t, was) && Consistent(u, s) && SnapshotFor(e, d, was, key, done, s)
    requires done ==> Moved(e, t, d, was, key, u.columns)
    requires !done && key in was ==> Untouched(t, was[key].column, u.columns)
    ensures Target(e, u, d, s, key) == Target(e, t, d, was, key)
  {
  }

  lemma StoppedTarget(e: Engine, t: Table, d: TableDef, was: Snapshot, keys: seq<string>, n: nat,
                      u: Table, s: Snapshot, again: seq<string>, key: string)
    requires Stopped(e, t, d, was, keys, n, u, s, again) && key in d.fields
    ensures Target(e, u, d, s, key) == Target(e, t, d, was, key)
  {
    var done := StoppedSnapshot(e, t, d, was, keys, n, u, s, again, key);
    assert Listed(keys, key);
    var j :| 0 <= j < |keys| && keys[j] == key && (done ==> j < n);
    assert done ==> Moved(e, t, d, was, keys[j], u.columns);
    assert !done && key in was ==> Untouched(t, was[keys[j]].column, u.columns);
    SameTarget(e, t, u, d, was, s, key, done);
  }

  lemma SameColumns(e: Engine, t: Table, u: Table, d: TableDef, was: Snapshot, s: Snapshot,
                    one: map<string, Column>, two: map<string, Column>)
    requires d.aux.Keys == d.fields.Keys && Consistent(t, was) && Consistent(u, s)
    requires one.Keys == Extras(t, was) + Image(d.fields) == two.Keys
    requires forall k | k in d.fields ::
               Moved(e, t, d, was, k, one) && Moved(e, u, d, s, k, two)
                   && Target(e, t, d, was, k) == Target(e, u, d, s, k)
    requires forall c | c in Extras(t, was) ::
               Untouched(t, c, one) && Untouched(u, c, two) && Untouched(t, c, u.columns)
    ensures one == two
  {
    forall c | c in one ensures one[c] == two[c] {
      if c !in Extras(t, was) {
        var k :| k in d.fields && d.fields[k].column == c;
        assert Moved(e, t, d, was, k, one) && Moved(e, u, d, s, k, two);
      }
    }
  }

  lemma FinalTable(e: Engine, t: Table, d: TableDef, was: Snapshot, keys: seq<string>) returns (final: Table)
    requires !e.sqlite && KeyOrder(keys, d, was) && Keyed(keys, d, was) && Consistent(t, was)
    requires NoClash(e, t, d, was, keys, |keys|)
    ensures RunKeys(e, t, d, was, keys, |keys|) == Some(final) && final.rows == t.rows
    ensures final.columns.Keys == Extras(t, was) + Image(d.fields)
    ensures forall k | k in d.fields :: Moved(e, t, d, was, k, final.columns)
    ensures forall c | c in Extras(t, was) :: Untouched(t, c, final.columns)
    ensures SnapshotAt(e, d, was, keys, |keys|) == d.fields
  {
    AllKeysListed(keys, d, was);
    SnapshotAtEnd(e, d, was, keys);
    ApplicableIffNoClash(e, t, d, was, keys, |keys|);
    final := RunKeys(e, t, d, was, keys, |keys|).value;
    BoundaryAtEnd(e, t, d, was, keys, final);
  }

  /** On engines that drop columns: exactly the new names, each holding what it must hold, and a
      snapshot equal to the new definition. */
  lemma MigrationResult(e: Engine, t: Table, d: TableDef, was: Snapshot, keys: seq<string>)
    requires !e.sqlite && KeyOrder(keys, d, was) && Consistent(t, was) && Extras(t, was) == {}
    requires NoClash(e, t, d, was, keys, |keys|)
    ensures RunKeys(e, t, d, was, keys, |keys|).Some?
    ensures SnapshotAt(e, d, was, keys, |keys|) == d.fields
    ensures var u := RunKeys(e, t, d, was, keys, |keys|).value;
            && u.rows == t.rows && u.columns.Keys == Image(d.fields) && Consistent(u, d.fields)
            && forall k | k in d.fields :: u.columns[d.fields[k].column] == Target(e, t, d, was, k)
  {
    var u := ResultTable(e, t, d, was, keys);
  }

  lemma ResultTable(e: Engine, t: Table, d: TableDef, was: Snapshot, keys: seq<string>) returns (u: Table)
    requires !e.sqlite && KeyOrder(keys, d, was) && Consistent(t, was) && Extras(t, was) == {}
    requires NoClash(e, t, d, was, keys, |keys|)
    ensures RunKeys(e, t, d, was, keys, |keys|) == Some(u) && SnapshotAt(e, d, was, keys, |keys|) == d.fields
    ensures u.rows == t.rows && u.columns.Keys == Image(d.fields) && Consistent(u, d.fields)
    ensures forall k | k in d.fields ::
              d.fields[k].column in u.columns && u.columns[d.fields[k].column] == Target(e, t, d, was, k)
  {
    u := FinalTable(e, t, d, was, keys);
    AllKeysListed(keys, d, was);
    ResultConsistent(e, t, d, was, keys, u);
    ResultTargets(e, t, d, was, u);
  }

  lemma ResultTargets(e: Engine, t: Table, d: TableDef, was: Snapshot, u: Table)
    requires d.aux.Keys == d.fields.Keys && Consistent(t, was)
    requires forall k | k in d.fields :: Moved(e, t, d, was, k, u.columns)
    ensures forall k | k in d.fields ::
              d.fields[k].column in u.columns && u.columns[d.fields[k].column] == Target(e, t, d, was, k)
  {
    forall k | k in d.fields
      ensures d.fields[k].column in u.columns && u.columns[d.fields[k].column] == Target(e, t, d, was, k)
    {
      assert Moved(e, t, d, was, k, u.columns);
    }
  }

  lemma ResultConsistent(e: Engine, t: Table, d: TableDef, was: Snapshot, keys: seq<string>, u: Table)
    requires !e.sqlite && Keyed(keys, d, was) && Covers(keys, was.Keys + d.fields.Keys) && Consistent(t, was)
    requires NoClash(e, t, d, was, keys, |keys|) && RunKeys(e, t, d, was, keys, |keys|) == Some(u)
    ensures Consistent(u, d.fields)
  {
    assert Covers(keys, was.Keys);
    ApplicableIffNoClash(e, t, d, was, keys, |keys|);
    BoundaryConsistent(e, t, d, was, keys, |keys|, u);
    SnapshotAtEnd(e, d, was, keys);
  }

  lemma ResumeReachesSame(e: Engine, t: Table, d: TableDef, was: Snapshot, keys: seq<string>, n: nat,
                          u: Table, s: Snapshot, again: seq<string>)
    requires Stopped(e, t, d, was, keys, n, u, s, again)
    ensures RunKeys(e, u, d, s, again, |again|).Some?
    ensures RunKeys(e, u, d, s, again, |again|) == RunKeys(e, t, d, was, keys, |keys|)
    ensures SnapshotAt(e, d, s, again, |again|) == SnapshotAt(e, d, was, keys, |keys|)
  {
    StoppedNoClash(e, t, d, was, keys, n, u, s, again);
    StoppedExtras(e, t, d, was, keys, n, u, s, again);
    var one := FinalTable(e, t, d, was, keys);
    var two := FinalTable(e, u, d, s, again);
    forall k | k in d.fields ensures Target(e, t, d, was, k) == Target(e, u, d, s, k) {
      StoppedTarget(e, t, d, was, keys, n, u, s, again, k);
    }
    assert ContentsAre(e, t, d, was, keys, n, u.columns);
    SameColumns(e, t, u, d, was, s, one.columns, two.columns);
  }

  /** Stopping at any boundary and defining the table again reaches the database and the snapshot of
      the uninterrupted run, in whatever order the snapshot lists the keys still to drop. */
  lemma StopAndResume(e: Engine, t: Table, d: TableDef, was: Snapshot, keys: seq<string>, n: nat, again: seq<string>)
    requires !e.sqlite && KeyOrder(keys, d, was) && Consistent(t, was) && NoClash(e, t, d, was, keys, |keys|)
    requires n <= |keys| && KeyOrder(again, d, SnapshotAt(e, d, was, keys, n))
    ensures RunKeys(e, t, d, was, keys, n).Some? && RunKeys(e, t, d, was, keys, |keys|).Some?
    ensures var s := SnapshotAt(e, d, was, keys, n);
            && RunKeys(e, RunKeys(e, t, d, was, keys, n).value, d, s, again, |again|)
               == RunKeys(e, t, d, was, keys, |keys|)
            && SnapshotAt(e, d, s, again, |again|) == SnapshotAt(e, d, was, keys, |keys|) == d.fields
  {
    AllKeysListed(keys, d, was);
    ApplicableIffNoClash(e, t, d, was, keys, n);
    ApplicableIffNoClash(e, t, d, was, keys, |keys|);
    var u := RunKeys(e, t, d, was, keys, n).value;
    BoundaryConsistent(e, t, d, was, keys, n, u);
    ResumeReachesSame(e, t, d, was, keys, n, u, SnapshotAt(e, d, was, keys, n), again);
    SnapshotAtEnd(e, d, was, keys);
  }

  // ----- Definitions that no engine rejects

  /** The new column names are distinct, a name already in the table stays with its key, and neither the
      table nor the new names use the temporary name of a key. */
  ghost predicate Ordinary(t: Table, d: TableDef, was: Snapshot) {
    && (forall k, l | k in d.fields && l in d.fields && k != l :: d.fields[k].column != d.fields[l].column)
    && (forall k | k in d.fields && d.fields[k].column in t.columns ::
          k in was && was[k].column == d.fields[k].column)
    && (forall k | k in d.fields :: k + "__tmp" !in t.columns)
    && forall k, l | k in d.fields && l in d.fields :: d.fields[l].column != k + "__tmp"
  }

  lemma NameIsFree(e: Engine, t: Table, d: TableDef, was: Snapshot, keys: seq<string>, n: nat, c: string)
    requires Keyed(keys, d, was) && Consistent(t, was) && n < |keys| && c !in t.columns
    requires forall j | 0 <= j < n && keys[j] in d.fields :: d.fields[keys[j]].column != c
    ensures !Occupied(e, t, d, was, keys, n, c)
  {
    assert forall k | k in was :: was[k].column in t.columns;
  }

  /** Every statement of such a definition is accepted: renames, type changes, added and dropped columns. */
  lemma OrdinaryAccepted(e: Engine, t: Table, d: TableDef, was: Snapshot, keys: seq<string>)
    requires KeyOrder(keys, d, was) && Consistent(t, was) && Ordinary(t, d, was)
    ensures RunKeys(e, t, d, was, keys, |keys|).Some? && NoClash(e, t, d, was, keys, |keys|)
  {
    AllKeysListed(keys, d, was);
    forall n | 0 <= n < |keys| ensures !Clash(e, t, d, was, keys, n) {
      var key := keys[n];
      if Arrives(key, d, was) {
        NameIsFree(e, t, d, was, keys, n, d.fields[key].column);
      }
      if Rebuilt(e, key, d, was) {
        NameIsFree(e, t, d, was, keys, n, key + "__tmp");
      }
    }
    ApplicableIffNoClash(e, t, d, was, keys, |keys|);
  }
}
