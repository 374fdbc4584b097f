/** CSV restore: rows are re-inserted so that each table keeps its ids up to one constant, and
    references are shifted by the constants known so far.
  */
module CsvImport {
  import opened Options

  /** A CSV line: its id, its reference cells (None is the null marker) and its other cells. */
  datatype CsvRow = CsvRow(id: int, links: map<string, Option<int>>, data: map<string, string>)

  datatype Record = Record(links: map<string, Option<int>>, data: map<string, string>)

  /** A table with consecutive ids that are never reused. */
  datatype Table = Table(next: int, rows: map<int, Record>)

  datatype Section = Section(table: string, rows: seq<CsvRow>)

  /** `refs` gives the target of each reference column of each table. */
  datatype Schema = Schema(refs: map<string, map<string, string>>)

  function Target(schema: Schema, table: string, column: string): Option<string> {
    if table in schema.refs && column in schema.refs[table] then Some(schema.refs[table][column]) else None
  }

  /** `fix` on a reference cell. */
  function FixLink(offsets: map<string, int>, target: Option<string>, cell: Option<int>): Option<int> {
    match (target, cell)
    case (Some(t), Some(n)) => if t in offsets then Some(offsets[t] + n) else Some(n)
    case _ => cell
  }

  function FixRow(schema: Schema, table: string, offsets: map<string, int>, row: CsvRow): Record {
    Record(map c | c in row.links :: FixLink(offsets, Target(schema, table, c), row.links[c]), row.data)
  }

  ghost predicate ValidTable(t: Table) { forall i | i in t.rows :: i < t.next }

  // ----- Where the rows must go

  /** The constant of a table, fixed by its first row. */
  function OffsetFor(next: int, rows: seq<CsvRow>): int
    requires rows != []
  {
    if next > rows[0].id then next - rows[0].id else 0
  }

  function Max(a: int, b: int): int { if a < b then b else a }

  /** The id row `i` gets: the next free one, or its own shifted one if that is larger. */
  function RowId(next: int, rows: seq<CsvRow>, i: nat): int
    requires i < |rows|
  {
    Max(if i == 0 then next else RowId(next, rows, i - 1) + 1, rows[i].id + OffsetFor(next, rows))
  }

  /** The offsets `fix` sees on row `i`: those of the tables before, and from the second row on its own. */
  function OffsetsAt(offsets: map<string, int>, table: string, next: int, rows: seq<CsvRow>, i: nat): map<string, int> {
    if i == 0 || rows == [] then offsets else offsets[table := OffsetFor(next, rows)]
  }

  function Stored(schema: Schema, table: string, offsets: map<string, int>, next: int, rows: seq<CsvRow>,
                  i: nat): Record
    requires i < |rows|
  {
    FixRow(schema, table, OffsetsAt(offsets, table, next, rows, i), rows[i])
  }

  /** The table once the first `n` rows are in. */
  function Imported(schema: Schema, table: string, offsets: map<string, int>, t: Table, rows: seq<CsvRow>,
                    n: nat): Table
    requires n <= |rows|
  {
    if n == 0 then t
    else
      var id := RowId(t.next, rows, n - 1);
      Table(id + 1, Imported(schema, table, offsets, t, rows, n - 1)
                    .rows[id := Stored(schema, table, offsets, t.next, rows, n - 1)])
  }

  // ----- What a restore leaves, row by row

  ghost predicate Increasing(rows: seq<CsvRow>) {
    forall i, j | 0 <= i < j < |rows| :: rows[i].id < rows[j].id
  }

  /** The first row gets its own id if that is still free ahead, the next one otherwise; every other row its own
      id moved as the first one's was, unless the ids are past it. */
  ghost predicate Placed(next: int, rows: seq<CsvRow>, ids: seq<int>) {
    && |ids| == |rows|
    && forall i | 0 <= i < |ids| ::
         ids[i] == if i == 0 then (if rows[0].id < next then next else rows[0].id)
                   else if ids[i - 1] + 1 < rows[i].id + ids[0] - rows[0].id then rows[i].id + ids[0] - rows[0].id
                   else ids[i - 1] + 1
  }

  /** How a reference cell is stored: moved by what is known of its table, `own` for the table itself. */
  ghost predicate CellStored(cell: Option<int>, target: Option<string>, name: string, offsets: map<string, int>,
                             own: Option<int>, stored: Option<int>)
  {
    if cell.None? || target.None? then stored == cell
    else if target.value == name && own.Some? then stored == Some(cell.value + own.value)
    else if target.value in offsets then stored == Some(cell.value + offsets[target.value])
    else stored == cell
  }

  /** The earlier records are untouched, the rows are at their ids with their cells, and nothing else is there. */
  ghost predicate Restored(schema: Schema, name: string, offsets: map<string, int>, before: Table, now: Table,
                           rows: seq<CsvRow>, ids: seq<int>)
    requires |ids| == |rows|
  {
    && now.rows.Keys == before.rows.Keys + (set i | 0 <= i < |ids| :: ids[i])
    && (forall i | i in before.rows :: now.rows[i] == before.rows[i])
    && (forall i | 0 <= i < |ids| :: ids[i] !in before.rows)
    && (forall i | 0 <= i < |ids| ::
          RowKept(schema, name, offsets, if i == 0 then None else Some(ids[0] - rows[0].id), rows[i], now.rows[ids[i]]))
  }

  ghost predicate RowKept(schema: Schema, name: string, offsets: map<string, int>, own: Option<int>, row: CsvRow,
                          stored: Record)
  {
    && stored.data == row.data && stored.links.Keys == row.links.Keys
    && forall c | c in row.links ::
         CellStored(row.links[c],
                    if name in schema.refs && c in schema.refs[name] then Some(schema.refs[name][c]) else None,
                    name, offsets, own, stored.links[c])
  }

  class Database {
    var tables: map<string, Table>
    var offsets: map<string, int>  // id_offset
    const schema: Schema

    constructor (schema: Schema, tables: map<string, Table>)
      ensures this.schema == schema && this.tables == tables && offsets == map[]
    {
      this.schema, this.tables, this.offsets := schema, tables, map[];
    }

    method Insert(name: string, r: Record) returns (id: int)
      requires name in tables
      modifies this`tables
      ensures id == old(tables)[name].next
      ensures tables == old(tables)[name := Table(id + 1, old(tables)[name].rows[id := r])]
    {
      id := tables[name].next;
      tables := tables[name := Table(id + 1, tables[name].rows[id := r])];
    }

    method Delete(name: string, id: int)
      requires name in tables
      modifies this`tables
      ensures tables == old(tables)[name := old(tables)[name].(rows := old(tables)[name].rows - {id})]
    {
      tables := tables[name := tables[name].(rows := tables[name].rows - {id})];
    }

    /** Insert, then delete and insert again until the id reaches `wanted`. */
    method InsertAt(name: string, r: Record, first: int, wanted: int) returns (id: int)
      requires name in tables && ValidTable(tables[name])
      requires first == tables[name].next - 1 && first in tables[name].rows && tables[name].rows[first] == r
      modifies this`tables
      ensures id == Max(first, wanted)
      ensures tables == old(tables)[name := Table(id + 1, (old(tables)[name].rows - {first})[id := r])]
    {
      id := first;
      ghost var others := tables[name].rows - {first};
      assert tables == tables[name := Table(id + 1, others[id := r])] by {
        assert tables[name].rows == others[id := r];
      }
      while id < wanted
        invariant first <= id <= Max(first, wanted)
        invariant forall i | i in others :: i < first
        invariant tables == old(tables)[name := Table(id + 1, others[id := r])]
        decreases wanted - id
      {
        Delete(name, id);
        assert tables[name].rows == others;
        id := Insert(name, r);
      }
    }

    /** `ids` is where the rows end up. */
    method ImportTable(name: string, rows: seq<CsvRow>) returns (ghost ids: seq<int>)
      requires name in tables && ValidTable(tables[name])
      modifies this
      ensures Placed(old(tables)[name].next, rows, ids)
      ensures tables.Keys == old(tables).Keys
      ensures Restored(schema, name, old(offsets), old(tables)[name], tables[name], rows, ids)
      ensures Increasing(rows) && rows != [] && rows[0].id >= old(tables)[name].next ==>
                forall i | 0 <= i < |rows| :: ids[i] == rows[i].id
      ensures Increasing(rows) && rows != [] && rows[0].id < old(tables)[name].next ==>
                forall i | 0 <= i < |rows| :: ids[i] == rows[i].id + old(tables)[name].next - rows[0].id
      ensures tables == old(tables)[name := Imported(schema, name, old(offsets), old(tables)[name], rows, |rows|)]
      ensures offsets == OffsetsAt(old(offsets), name, old(tables)[name].next, rows, |rows|)
    {
      ghost var t, before := tables[name], offsets;
      ImportRows(name, rows);
      ids := seq(|rows|, i requires 0 <= i < |rows| => RowId(t.next, rows, i));
      RowsPlaced(t.next, rows, ids);
      RowsRestored(schema, name, before, t, rows, ids);
    }

    /** The loop over the lines. */
    method ImportRows(name: string, rows: seq<CsvRow>)
      requires name in tables && ValidTable(tables[name])
      modifies this
      ensures tables == old(tables)[name := Imported(schema, name, old(offsets), old(tables)[name], rows, |rows|)]
      ensures offsets == OffsetsAt(old(offsets), name, old(tables)[name].next, rows, |rows|)
    {
      ghost var t, before := tables[name], offsets;
      var first := true;
      assert tables == tables[name := t];
      for i := 0 to |rows|
        invariant first <==> i == 0
        invariant offsets == OffsetsAt(before, name, t.next, rows, i)
        invariant tables == old(tables)[name := Imported(schema, name, before, t, rows, i)]
        invariant ValidTable(tables[name]) && (i > 0 ==> tables[name].next == RowId(t.next, rows, i - 1) + 1)
      {
        ghost var soFar := tables[name];
        var csvId := rows[i].id;
        var record := FixRow(schema, name, offsets, rows[i]);
        var id := Insert(name, record);
        if first {
          first := false;
          offsets := offsets[name := if id > csvId then id - csvId else 0];
        }
        assert tables[name].rows - {id} == soFar.rows;
        id := InsertAt(name, record, id, csvId + offsets[name]);
        ImportedMore(schema, name, before, t, rows, i, id, offsets);
      }
    }

    /** None of the sections may name an unknown table. */
    method ImportAll(sections: seq<Section>) returns (ok: bool)
      requires forall n | n in tables :: ValidTable(tables[n])
      modifies this
      ensures ok <==> forall k | 0 <= k < |sections| :: sections[k].table in old(tables)
      ensures ok ==> (tables, offsets) == ImportedAll(schema, old(tables), map[], sections, |sections|)
    {
      offsets := map[];
      for k := 0 to |sections|
        invariant forall j | 0 <= j < k :: sections[j].table in old(tables)
        invariant tables.Keys == old(tables).Keys && forall n | n in tables :: ValidTable(tables[n])
        invariant (tables, offsets) == ImportedAll(schema, old(tables), map[], sections, k)
      {
        if sections[k].table !in tables {
          return false;
        }
        ghost var t := tables[sections[k].table];
        ImportedIsValid(schema, sections[k].table, offsets, t, sections[k].rows, |sections[k].rows|);
        ghost var _ := ImportTable(sections[k].table, sections[k].rows);
      }
      ok := true;
    }
  }

  /** Tables and offsets after the first `n` sections; a section of an unknown table changes nothing here. */
  function ImportedAll(schema: Schema, tables: map<string, Table>, offsets: map<string, int>, sections: seq<Section>,
                       n: nat)
    : (map<string, Table>, map<string, int>)
    requires n <= |sections|
  {
    if n == 0 then (tables, offsets)
    else
      var (ts, os) := ImportedAll(schema, tables, offsets, sections, n - 1);
      var s := sections[n - 1];
      if s.table !in ts then (ts, os)
      else (ts[s.table := Imported(schema, s.table, os, ts[s.table], s.rows, |s.rows|)],
            OffsetsAt(os, s.table, ts[s.table].next, s.rows, |s.rows|))
  }

  // ----- One table

  lemma {:induction false} RowIdsIncrease(next: int, rows: seq<CsvRow>, i: nat, j: nat)
    requires i < j < |rows|
    ensures next <= RowId(next, rows, i) < RowId(next, rows, j)
    decreases j
  {
    if i + 1 < j {
      RowIdsIncrease(next, rows, i, j - 1);
    } else if i > 0 {
      RowIdsIncrease(next, rows, i - 1, i);
    }
  }

  lemma {:induction false} RowIdAboveNext(next: int, rows: seq<CsvRow>, i: nat)
    requires i < |rows|
    ensures next <= RowId(next, rows, i)
  {
    if i > 0 {
      RowIdAboveNext(next, rows, i - 1);
    }
  }

  lemma ImportedMore(schema: Schema, table: string, offsets: map<string, int>, t: Table, rows: seq<CsvRow>, i: nat,
                     id: int, now: map<string, int>)
    requires i < |rows| && now == OffsetsAt(offsets, table, t.next, rows, i + 1)
    requires id == Max(if i == 0 then t.next else RowId(t.next, rows, i - 1) + 1, rows[i].id + now[table])
    ensures id == RowId(t.next, rows, i)
    ensures Imported(schema, table, offsets, t, rows, i + 1)
            == Table(id + 1, Imported(schema, table, offsets, t, rows, i)
                             .rows[id := Stored(schema, table, offsets, t.next, rows, i)])
  {
  }

  lemma {:induction false} ImportedIsValid(schema: Schema, table: string, offsets: map<string, int>, t: Table,
                                           rows: seq<CsvRow>, n: nat)
    requires ValidTable(t) && n <= |rows|
    ensures ValidTable(Imported(schema, table, offsets, t, rows, n))
    ensures n > 0 ==> Imported(schema, table, offsets, t, rows, n).next == RowId(t.next, rows, n - 1) + 1
  {
    if n > 0 {
      ImportedIsValid(schema, table, offsets, t, rows, n - 1);
    }
  }

  /** Earlier records are untouched. */
  lemma {:induction false} EarlierKept(schema: Schema, table: string, offsets: map<string, int>, t: Table,
                                       rows: seq<CsvRow>, n: nat, i: int)
    requires ValidTable(t) && n <= |rows| && i in t.rows
    ensures var r := Imported(schema, table, offsets, t, rows, n);
            i in r.rows && r.rows[i] == t.rows[i]
  {
    if n > 0 {
      EarlierKept(schema, table, offsets, t, rows, n - 1, i);
      RowIdAboveNext(t.next, rows, n - 1);
    }
  }

  /** Each CSV row is at its id. */
  lemma {:induction false} RowStored(schema: Schema, table: string, offsets: map<string, int>, t: Table,
                                     rows: seq<CsvRow>, n: nat, k: nat)
    requires k < n <= |rows|
    ensures var r := Imported(schema, table, offsets, t, rows, n);
            RowId(t.next, rows, k) in r.rows
            && r.rows[RowId(t.next, rows, k)] == Stored(schema, table, offsets, t.next, rows, k)
  {
    if k < n - 1 {
      RowStored(schema, table, offsets, t, rows, n - 1, k);
      RowIdsIncrease(t.next, rows, k, n - 1);
    }
  }

  /** No other record appears, and the passed-over ids leave none behind. */
  lemma {:induction false} NothingElse(schema: Schema, table: string, offsets: map<string, int>, t: Table,
                                       rows: seq<CsvRow>, n: nat, i: int)
    returns (k: nat)
    requires n <= |rows| && i in Imported(schema, table, offsets, t, rows, n).rows && i !in t.rows
    ensures k < n && RowId(t.next, rows, k) == i
  {
    if RowId(t.next, rows, n - 1) == i {
      k := n - 1;
    } else {
      k := NothingElse(schema, table, offsets, t, rows, n - 1, i);
    }
  }

  /** Exactly one new record per CSV row, at its id; every earlier record untouched. */
  lemma ImportedRows(schema: Schema, table: string, offsets: map<string, int>, t: Table, rows: seq<CsvRow>)
    requires ValidTable(t)
    ensures var r := Imported(schema, table, offsets, t, rows, |rows|);
            && (forall i | i in t.rows :: i in r.rows && r.rows[i] == t.rows[i])
            && (forall k | 0 <= k < |rows| :: RowId(t.next, rows, k) !in t.rows && RowId(t.next, rows, k) in r.rows
                  && r.rows[RowId(t.next, rows, k)] == Stored(schema, table, offsets, t.next, rows, k))
            && (forall i | i in r.rows && i !in t.rows :: exists k :: 0 <= k < |rows| && RowId(t.next, rows, k) == i)
            && (forall j, k | 0 <= j < k < |rows| :: RowId(t.next, rows, j) < RowId(t.next, rows, k))
  {
    var r := Imported(schema, table, offsets, t, rows, |rows|);
    forall i | i in t.rows ensures i in r.rows && r.rows[i] == t.rows[i] {
      EarlierKept(schema, table, offsets, t, rows, |rows|, i);
    }
    forall k | 0 <= k < |rows|
      ensures RowId(t.next, rows, k) !in t.rows && RowId(t.next, rows, k) in r.rows
              && r.rows[RowId(t.next, rows, k)] == Stored(schema, table, offsets, t.next, rows, k)
    {
      RowStored(schema, table, offsets, t, rows, |rows|, k);
      RowIdAboveNext(t.next, rows, k);
    }
    forall i | i in r.rows && i !in t.rows ensures exists k :: 0 <= k < |rows| && RowId(t.next, rows, k) == i {
      var k := NothingElse(schema, table, offsets, t, rows, |rows|, i);
    }
    forall j, k | 0 <= j < k < |rows| ensures RowId(t.next, rows, j) < RowId(t.next, rows, k) {
      RowIdsIncrease(t.next, rows, j, k);
    }
  }

  /** The ids are the CSV ids up to one constant exactly when the CSV ids increase. */
  lemma ShiftedIffIncreasing(next: int, rows: seq<CsvRow>)
    requires rows != []
    ensures (forall i | 0 <= i < |rows| :: RowId(next, rows, i) == rows[i].id + OffsetFor(next, rows))
            <==> Increasing(rows)
  {
    if Increasing(rows) {
      forall i | 0 <= i < |rows| ensures RowId(next, rows, i) == rows[i].id + OffsetFor(next, rows) {
        IncreasingIsShifted(next, rows, i);
      }
    } else {
      var i, j :| 0 <= i < j < |rows| && rows[i].id >= rows[j].id;
      RowIdsIncrease(next, rows, i, j);
    }
  }

  lemma {:induction false} IncreasingIsShifted(next: int, rows: seq<CsvRow>, i: nat)
    requires Increasing(rows) && i < |rows|
    ensures RowId(next, rows, i) == rows[i].id + OffsetFor(next, rows)
  {
    if i > 0 {
      IncreasingIsShifted(next, rows, i - 1);
    }
  }

  lemma RowsPlaced(next: int, rows: seq<CsvRow>, ids: seq<int>)
    requires |ids| == |rows| && forall i | 0 <= i < |rows| :: ids[i] == RowId(next, rows, i)
    ensures Placed(next, rows, ids)
    ensures Increasing(rows) && rows != [] && rows[0].id >= next ==> forall i | 0 <= i < |rows| :: ids[i] == rows[i].id
    ensures Increasing(rows) && rows != [] && rows[0].id < next ==>
              forall i | 0 <= i < |rows| :: ids[i] == rows[i].id + next - rows[0].id
  {
    if rows != [] {
      assert ids[0] == RowId(next, rows, 0) == rows[0].id + OffsetFor(next, rows);
    }
    if Increasing(rows) {
      forall i | 0 <= i < |rows| ensures ids[i] == rows[i].id + OffsetFor(next, rows) {
        IncreasingIsShifted(next, rows, i);
      }
    }
  }

  lemma FixedRowKept(schema: Schema, name: string, offsets: map<string, int>, own: Option<int>, row: CsvRow)
    ensures RowKept(schema, name, offsets, own, row,
                    FixRow(schema, name, if own.None? then offsets else offsets[name := own.value], row))
  {
  }

  lemma RowsRestored(schema: Schema, name: string, offsets: map<string, int>, t: Table, rows: seq<CsvRow>,
                     ids: seq<int>)
    requires ValidTable(t) && |ids| == |rows| && forall i | 0 <= i < |rows| :: ids[i] == RowId(t.next, rows, i)
    ensures Restored(schema, name, offsets, t, Imported(schema, name, offsets, t, rows, |rows|), rows, ids)
  {
    var r := Imported(schema, name, offsets, t, rows, |rows|);
    forall i | i in t.rows ensures i in r.rows && r.rows[i] == t.rows[i] {
      EarlierKept(schema, name, offsets, t, rows, |rows|, i);
    }
    forall i | 0 <= i < |ids|
      ensures ids[i] in r.rows && ids[i] !in t.rows
      ensures RowKept(schema, name, offsets, if i == 0 then None else Some(ids[0] - rows[0].id), rows[i],
              r.rows[ids[i]])
    {
      RowStored(schema, name, offsets, t, rows, |rows|, i);
      RowIdAboveNext(t.next, rows, i);
      RowStoredKept(schema, name, offsets, t.next, rows, i, ids[0]);
    }
    KeysOfImport(schema, name, offsets, t, rows, ids);
  }

  lemma KeysOfImport(schema: Schema, name: string, offsets: map<string, int>, t: Table, rows: seq<CsvRow>,
                     ids: seq<int>)
    requires |ids| == |rows| && forall i | 0 <= i < |rows| :: ids[i] == RowId(t.next, rows, i)
    requires forall i | i in t.rows :: i in Imported(schema, name, offsets, t, rows, |rows|).rows
    requires forall i | 0 <= i < |ids| :: ids[i] in Imported(schema, name, offsets, t, rows, |rows|).rows
    ensures Imported(schema, name, offsets, t, rows, |rows|).rows.Keys
            == t.rows.Keys + (set i | 0 <= i < |ids| :: ids[i])
  {
    var r := Imported(schema, name, offsets, t, rows, |rows|);
    var added := set i | 0 <= i < |ids| :: ids[i];
    forall i ensures i in r.rows.Keys <==> i in t.rows.Keys + added {
      if i in r.rows && i !in t.rows {
        var k := NothingElse(schema, name, offsets, t, rows, |rows|, i);
        assert ids[k] == i;
      }
    }
    assert r.rows.Keys == t.rows.Keys + added;
  }

  lemma RowStoredKept(schema: Schema, name: string, offsets: map<string, int>, next: int, rows: seq<CsvRow>, i: nat,
                      first: int)
    requires i < |rows| && first == RowId(next, rows, 0)
    ensures RowKept(schema, name, offsets, if i == 0 then None else Some(first - rows[0].id), rows[i],
                    Stored(schema, name, offsets, next, rows, i))
  {
    FixedRowKept(schema, name, offsets, if i == 0 then None else Some(first - rows[0].id), rows[i]);
  }

  // ----- References between tables

  ghost predicate DistinctTables(sections: seq<Section>) {
    forall i, j | 0 <= i < j < |sections| :: sections[i].table != sections[j].table
  }

  /** Each section is imported into the table as it was before everything. */
  lemma {:induction false} SectionStart(schema: Schema, tables: map<string, Table>, sections: seq<Section>, n: nat,
                                        name: string)
    requires DistinctTables(sections) && n <= |sections| && name in tables
    requires forall k | 0 <= k < n :: sections[k].table != name
    ensures name in ImportedAll(schema, tables, map[], sections, n).0
    ensures ImportedAll(schema, tables, map[], sections, n).0[name] == tables[name]
  {
    if n > 0 {
      SectionStart(schema, tables, sections, n - 1, name);
    }
  }

  ghost predicate KnownTables(tables: map<string, Table>, sections: seq<Section>) {
    DistinctTables(sections) && forall k | 0 <= k < |sections| :: sections[k].table in tables
  }

  /** The constant of a section. */
  ghost function Shift(tables: map<string, Table>, s: Section): int
    requires s.table in tables && s.rows != []
  {
    OffsetFor(tables[s.table].next, s.rows)
  }

  /** After `n` sections the known constants are those of the non-empty sections among them. */
  lemma {:induction false} OffsetsAfter(schema: Schema, tables: map<string, Table>, sections: seq<Section>, n: nat,
                                        j: nat)
    requires KnownTables(tables, sections) && n <= |sections| && j < |sections| && sections[j].rows != []
    ensures var os := ImportedAll(schema, tables, map[], sections, n).1;
            && (sections[j].table in os <==> j < n)
            && (j < n ==> os[sections[j].table] == Shift(tables, sections[j]))
  {
    if n > 0 {
      OffsetsAfter(schema, tables, sections, n - 1, j);
      SectionStart(schema, tables, sections, n - 1, sections[n - 1].table);
    }
  }

  /** The offsets that row `i` of section `k` is fixed with. */
  ghost function OffsetsSeen(schema: Schema, tables: map<string, Table>, sections: seq<Section>, k: nat,
                             i: nat): map<string, int>
    requires k < |sections| && sections[k].table in tables
  {
    OffsetsAt(ImportedAll(schema, tables, map[], sections, k).1, sections[k].table, tables[sections[k].table].next,
        sections[k].rows, i)
  }

  /** What the whole import leaves of row `i` of section `k`. */
  lemma {:induction false} RowOfSection(schema: Schema, tables: map<string, Table>, sections: seq<Section>, n: nat,
                                        k: nat, i: nat)
    requires KnownTables(tables, sections) && (forall t | t in tables :: ValidTable(tables[t]))
    requires k < n <= |sections| && i < |sections[k].rows|
    ensures var name := sections[k].table;
            var id := RowId(tables[name].next, sections[k].rows, i);
            var ts := ImportedAll(schema, tables, map[], sections, n).0;
            && name in ts && id in ts[name].rows
            && ts[name].rows[id] == FixRow(schema, name, OffsetsSeen(schema, tables, sections, k, i),
               sections[k].rows[i])
  {
    var name := sections[k].table;
    if n == k + 1 {
      SectionStart(schema, tables, sections, k, name);
      RowStored(schema, name, ImportedAll(schema, tables, map[], sections, k).1, tables[name], sections[k].rows,
          |sections[k].rows|, i);
    } else {
      RowOfSection(schema, tables, sections, n - 1, k, i);
    }
  }

  /** A reference to a row of another section of the file is stored as the id of that row exactly when
      the constant of its table was already known, or is zero.  Known are: the sections before, and
      from its second row on the section itself. */
  lemma ReferenceFollowsItsRow(schema: Schema, tables: map<string, Table>, sections: seq<Section>,
                               k: nat, i: nat, column: string, j: nat, m: nat)
    requires KnownTables(tables, sections)
    requires k < |sections| && i < |sections[k].rows| && j < |sections| && m < |sections[j].rows|
    requires Increasing(sections[j].rows)
    requires column in sections[k].rows[i].links && sections[k].rows[i].links[column] == Some(sections[j].rows[m].id)
    requires Target(schema, sections[k].table, column) == Some(sections[j].table)
    ensures var stored := FixRow(schema, sections[k].table, OffsetsSeen(schema, tables, sections, k, i),
            sections[k].rows[i]);
            stored.links[column] == Some(RowId(tables[sections[j].table].next, sections[j].rows, m))
            <==> j < k || (j == k && i > 0) || sections[j].rows[0].id >= tables[sections[j].table].next
  {
    IncreasingIsShifted(tables[sections[j].table].next, sections[j].rows, m);
    OffsetsAfter(schema, tables, sections, k, j);
  }
}
