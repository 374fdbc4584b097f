/** Referential actions of the MongoDB adapter.

    MongoDB has no foreign keys, so `Mongo.delete` carries out CASCADE and SET NULL itself: it
    removes the matched documents, recurses through every CASCADE field that pointed at them and
    nulls every SET NULL field.  The reference graph may be cyclic and the pending work lives in
    the call stack.  The specification knows nothing of that order: it grows the set of doomed
    documents in rounds, over the database as it was before the call.
  */
module Cascade {

  /** The collections of one database, as one map from (collection, _id) to document. */
  datatype Key = Key(table: string, id: int)

  datatype Value = Null | Id(id: int) | Scalar(text: string)

  type Record = map<string, Value>

  type Database = map<Key, Record>

  datatype OnDelete = CASCADE | SET_NULL | NO_ACTION

  /** `KeyedReference` is the type string "reference table.column", which `delete` skips. */
  datatype FieldType = Reference(target: string) | KeyedReference(target: string, column: string)

  datatype Field = Field(table: string, name: string, ftype: FieldType, ondelete: OnDelete)

  /** `referencedBy[t]` is `_referenced_by` of table t. */
  datatype Schema = Schema(referencedBy: map<string, seq<Field>>)

  /** `delete` on the table that `f` references treats `f` with `action`. */
  ghost predicate Acts(schema: Schema, f: Field, action: OnDelete) {
    && f.ftype.Reference? && f.ondelete == action
    && f.ftype.target in schema.referencedBy && f in schema.referencedBy[f.ftype.target]
  }

  /** `f` is one of the fields `delete` looks after. */
  ghost predicate Guarded(schema: Schema, f: Field) {
    Acts(schema, f, CASCADE) || Acts(schema, f, SET_NULL)
  }

  /** A column belongs to one field object only. */
  ghost predicate WellFormed(schema: Schema) {
    forall t, u, f, g | t in schema.referencedBy && u in schema.referencedBy
                        && f in schema.referencedBy[t] && g in schema.referencedBy[u] ::
      f.table == g.table && f.name == g.name ==> f == g
  }

  /** Field `f` of document `k` holds the id of a member of `targets`. */
  predicate PointsInto(k: Key, r: Record, f: Field, targets: set<Key>) {
    && k.table == f.table && f.name in r && r[f.name].Id?
    && Key(f.ftype.target, r[f.name].id) in targets
  }

  // ----- What a delete does, record by record

  /** `child` holds the id of `parent` in a field that acts so. */
  ghost predicate Refers(schema: Schema, db: Database, action: OnDelete, child: Key, parent: Key) {
    child in db
    && exists f ::
         && Acts(schema, f, action) && f.ftype == Reference(parent.table) && f.table == child.table
         && f.name in db[child] && db[child][f.name] == Id(parent.id)
  }

  /** Each record after the first refers, through a CASCADE field, to the one before it. */
  ghost predicate Chain(schema: Schema, db: Database, path: seq<Key>) {
    && path != [] && (forall i | 0 <= i < |path| :: path[i] in db)
    && forall i | 0 < i < |path| :: Refers(schema, db, CASCADE, path[i], path[i - 1])
  }

  /** The records that a chain leads to from a matched one are removed, and no others; a record is removed
      exactly when it is matched or refers, through a CASCADE field, to a removed one. */
  ghost predicate RemovesExactly(schema: Schema, before: Database, now: Database, table: string,
                                 query: (int, Record) -> bool)
  {
    && now.Keys <= before.Keys
    && (forall k | k in before ::
          k !in now <==>
          || (k.table == table && query(k.id, before[k]))
          || exists p :: p in before && p !in now && Refers(schema, before, CASCADE, k, p))
    && (forall k | k in before ::
          k !in now <==>
          exists path: seq<Key> ::
            && Chain(schema, before, path) && path[|path| - 1] == k
            && path[0].table == table && query(path[0].id, before[path[0]]))
  }

  /** Of the survivors exactly the SET NULL fields that named a removed record are Null now. */
  ghost predicate NullsExactly(schema: Schema, before: Database, now: Database) {
    forall k | k in now && k in before ::
      && now[k].Keys == before[k].Keys
      && forall n | n in before[k] ::
           now[k][n] == if NamesRemoved(schema, before, now, k, n) then Null else before[k][n]
  }

  ghost predicate NamesRemoved(schema: Schema, before: Database, now: Database, k: Key, n: string)
    requires k in before && n in before[k]
  {
    exists f: Field, p: Key ::
      && Acts(schema, f, SET_NULL) && f.ftype == Reference(p.table) && f.table == k.table && f.name == n
      && before[k][n] == Id(p.id) && p in before && p !in now
  }

  // ----- Reference definition: the closure, in rounds

  ghost predicate Dragged(schema: Schema, k: Key, r: Record, targets: set<Key>) {
    exists f :: Acts(schema, f, CASCADE) && PointsInto(k, r, f, targets)
  }

  ghost function Round(schema: Schema, db: Database, seeds: set<Key>, n: nat): set<Key> {
    if n == 0 then seeds
    else
      var previous := Round(schema, db, seeds, n - 1);
      previous + set k | k in db && Dragged(schema, k, db[k], previous)
  }

  ghost function Closure(schema: Schema, db: Database, seeds: set<Key>): set<Key> {
    set k | k in db && exists n: nat :: k in Round(schema, db, seeds, n)
  }

  ghost predicate NullHit(schema: Schema, table: string, name: string, v: Value, gone: set<Key>) {
    v.Id? && exists f ::
        Acts(schema, f, SET_NULL) && f.table == table && f.name == name && Key(f.ftype.target, v.id) in gone
  }

  ghost function Nulled(schema: Schema, table: string, r: Record, gone: set<Key>): Record {
    map n | n in r :: if NullHit(schema, table, n, r[n], gone) then Null else r[n]
  }

  /** The database a delete of `seeds` must leave: the closure removed, exactly the survivors'
      SET NULL fields into the closure nulled, everything else untouched. */
  ghost function AfterDelete(schema: Schema, db: Database, seeds: set<Key>): Database {
    var gone := Closure(schema, db, seeds);
    map k | k in db && k !in gone :: Nulled(schema, k.table, db[k], gone)
  }

  // ----- Invariants of the recursion

  ghost predicate Weakened(schema: Schema, table: string, before: Record, now: Record, gone: set<Key>) {
    && before.Keys == now.Keys
    && forall n | n in before ::
         now[n] == before[n] || (now[n] == Null && NullHit(schema, table, n, before[n], gone))
  }

  /** `now` is `before` without `gone`, some SET NULL fields into `gone` nulled. */
  ghost predicate Progress(schema: Schema, before: Database, now: Database, gone: set<Key>) {
    && gone <= before.Keys
    && now.Keys == before.Keys - gone
    && forall k | k in now :: Weakened(schema, k.table, before[k], now[k], gone)
  }

  /** No surviving CASCADE or SET NULL field points into `targets`. */
  ghost predicate Settled(schema: Schema, db: Database, targets: set<Key>) {
    forall k, f | k in db && Guarded(schema, f) ::
      !PointsInto(k, db[k], f, targets)
  }

  /** What one completed call achieves. */
  ghost predicate Completed(schema: Schema, before: Database, now: Database, seeds: set<Key>, gone: set<Key>) {
    && Progress(schema, before, now, gone)
    && seeds <= gone <= Closure(schema, before, seeds)
    && Settled(schema, now, gone)
  }

  lemma {:induction false} RoundGrows(schema: Schema, db: Database, seeds: set<Key>, n: nat, m: nat)
    requires n <= m
    ensures Round(schema, db, seeds, n) <= Round(schema, db, seeds, m)
    decreases m
  {
    if n < m {
      RoundGrows(schema, db, seeds, n, m - 1);
    }
  }

  lemma {:induction false} RoundWithin(schema: Schema, db: Database, seeds: set<Key>, closed: set<Key>, n: nat)
    requires seeds <= closed
    requires forall k | k in db && Dragged(schema, k, db[k], closed) :: k in closed
    ensures Round(schema, db, seeds, n) <= closed
  {
    if n > 0 {
      RoundWithin(schema, db, seeds, closed, n - 1);
      var previous := Round(schema, db, seeds, n - 1);
      forall k | k in db && Dragged(schema, k, db[k], previous) ensures k in closed {
        var f :| Acts(schema, f, CASCADE) && PointsInto(k, db[k], f, previous);
        assert PointsInto(k, db[k], f, closed);
      }
    }
  }

  /** The closure is closed under CASCADE, and no smaller set that holds the seeds is. */
  lemma ClosureIsLeastClosed(schema: Schema, db: Database, seeds: set<Key>)
    requires seeds <= db.Keys
    ensures seeds <= Closure(schema, db, seeds)
    ensures forall k | k in db && Dragged(schema, k, db[k], Closure(schema, db, seeds)) ::
              k in Closure(schema, db, seeds)
    ensures forall closed: set<Key> |
              seeds <= closed && (forall k | k in db && Dragged(schema, k, db[k], closed) :: k in closed) ::
              Closure(schema, db, seeds) <= closed
  {
    var c := Closure(schema, db, seeds);
    assert Round(schema, db, seeds, 0) == seeds;
    forall k | k in db && Dragged(schema, k, db[k], c) ensures k in c {
      var f :| Acts(schema, f, CASCADE) && PointsInto(k, db[k], f, c);
      var target := Key(f.ftype.target, db[k][f.name].id);
      var n: nat :| target in Round(schema, db, seeds, n);
      assert PointsInto(k, db[k], f, Round(schema, db, seeds, n));
      assert k in Round(schema, db, seeds, n + 1);
    }
    forall closed: set<Key> |
      seeds <= closed && (forall k | k in db && Dragged(schema, k, db[k], closed) :: k in closed)
      ensures c <= closed
    {
      forall k | k in c ensures k in closed {
        var n: nat :| k in Round(schema, db, seeds, n);
        RoundWithin(schema, db, seeds, closed, n);
      }
    }
  }

  lemma CascadeValueKept(schema: Schema, f: Field, k: Key, before: Record, now: Record, gone: set<Key>)
    requires WellFormed(schema) && Acts(schema, f, CASCADE) && k.table == f.table
    requires Weakened(schema, k.table, before, now, gone)
    ensures f.name in before <==> f.name in now
    ensures f.name in before ==> now[f.name] == before[f.name]
  {
  }

  lemma DraggedNow(schema: Schema, k: Key, before: Record, now: Record, gone: set<Key>)
    requires WellFormed(schema) && Weakened(schema, k.table, before, now, gone)
    ensures Dragged(schema, k, before, gone) == Dragged(schema, k, now, gone)
  {
    if f :| Acts(schema, f, CASCADE) && PointsInto(k, before, f, gone) {
      CascadeValueKept(schema, f, k, before, now, gone);
      assert PointsInto(k, now, f, gone);
    }
    if f :| Acts(schema, f, CASCADE) && PointsInto(k, now, f, gone) {
      CascadeValueKept(schema, f, k, before, now, gone);
      assert PointsInto(k, before, f, gone);
    }
  }

  lemma SettledRecord(schema: Schema, k: Key, before: Record, now: Record, gone: set<Key>)
    requires Weakened(schema, k.table, before, now, gone)
    requires forall f | Guarded(schema, f) :: !PointsInto(k, now, f, gone)
    ensures now == Nulled(schema, k.table, before, gone)
    ensures !Dragged(schema, k, now, gone)
  {
    forall n | n in before && NullHit(schema, k.table, n, before[n], gone) ensures now[n] == Null {
      var f :| Acts(schema, f, SET_NULL) && f.table == k.table && f.name == n
          && Key(f.ftype.target, before[n].id) in gone;
      assert now[n] == before[n] ==> PointsInto(k, now, f, gone);
    }
  }

  lemma ClosureMinimal(schema: Schema, db: Database, seeds: set<Key>, closed: set<Key>)
    requires seeds <= db.Keys && seeds <= closed
    requires forall k | k in db && k !in closed :: !Dragged(schema, k, db[k], closed)
    ensures Closure(schema, db, seeds) <= closed
  {
    ClosureIsLeastClosed(schema, db, seeds);
    assert forall k | k in db && Dragged(schema, k, db[k], closed) :: k in closed;
  }

  /** Any finished run, whatever its order, has left exactly the specified database. */
  lemma CompletedIsAfterDelete(schema: Schema, before: Database, now: Database, seeds: set<Key>, gone: set<Key>)
    requires WellFormed(schema) && Completed(schema, before, now, seeds, gone)
    ensures gone == Closure(schema, before, seeds)
    ensures now == AfterDelete(schema, before, seeds)
  {
    forall k | k in now
      ensures now[k] == Nulled(schema, k.table, before[k], gone) && !Dragged(schema, k, before[k], gone)
    {
      SettledRecord(schema, k, before[k], now[k], gone);
      DraggedNow(schema, k, before[k], now[k], gone);
    }
    ClosureMinimal(schema, before, seeds, gone);
  }

  lemma ProgressComposes(schema: Schema, a: Database, b: Database, c: Database, goneAB: set<Key>, goneBC: set<Key>)
    requires Progress(schema, a, b, goneAB) && Progress(schema, b, c, goneBC)
    ensures Progress(schema, a, c, goneAB + goneBC)
  {
    var gone := goneAB + goneBC;
    forall k | k in c ensures Weakened(schema, k.table, a[k], c[k], gone) {
      assert Weakened(schema, k.table, a[k], b[k], goneAB);
      assert Weakened(schema, k.table, b[k], c[k], goneBC);
      forall n | n in a[k] ensures c[k][n] == a[k][n]
          || (c[k][n] == Null && NullHit(schema, k.table, n, a[k][n], gone)) {
        if NullHit(schema, k.table, n, a[k][n], goneAB) {
          NullHitGrows(schema, k.table, n, a[k][n], goneAB, gone);
        }
        if NullHit(schema, k.table, n, a[k][n], goneBC) {
          NullHitGrows(schema, k.table, n, a[k][n], goneBC, gone);
        }
      }
    }
  }

  lemma NullHitGrows(schema: Schema, table: string, n: string, v: Value, small: set<Key>, large: set<Key>)
    requires small <= large && NullHit(schema, table, n, v, small)
    ensures NullHit(schema, table, n, v, large)
  {
    var f :| Acts(schema, f, SET_NULL) && f.table == table && f.name == n && Key(f.ftype.target, v.id) in small;
    assert Key(f.ftype.target, v.id) in large;
  }

  /** A field that pointed nowhere into `targets` still does not: values only turn to Null. */
  lemma PointsKept(schema: Schema, k: Key, f: Field, before: Record, now: Record, gone: set<Key>, targets: set<Key>)
    requires Weakened(schema, k.table, before, now, gone)
    requires !PointsInto(k, before, f, targets)
    ensures !PointsInto(k, now, f, targets)
  {
  }

  lemma SettledKept(schema: Schema, a: Database, b: Database, gone: set<Key>, targets: set<Key>)
    requires Progress(schema, a, b, gone) && Settled(schema, a, targets)
    ensures Settled(schema, b, targets)
  {
    forall k, f | k in b && Guarded(schema, f)
      ensures !PointsInto(k, b[k], f, targets)
    {
      PointsKept(schema, k, f, a[k], b[k], gone, targets);
    }
  }

  /** What a nested call may reach, the outer call may reach. */
  lemma NestedClosureWithin(schema: Schema, a: Database, b: Database, gone: set<Key>, inner: set<Key>, outer: set<Key>)
    requires WellFormed(schema) && Progress(schema, a, b, gone)
    requires outer <= a.Keys && inner <= b.Keys
    requires inner <= Closure(schema, a, outer)
    ensures Closure(schema, b, inner) <= Closure(schema, a, outer)
  {
    var c := Closure(schema, a, outer);
    ClosureIsLeastClosed(schema, a, outer);
    forall k | k in b && Dragged(schema, k, b[k], c) ensures k in c {
      var f :| Acts(schema, f, CASCADE) && PointsInto(k, b[k], f, c);
      CascadeValueKept(schema, f, k, a[k], b[k], gone);
      assert PointsInto(k, a[k], f, c);
    }
    ClosureIsLeastClosed(schema, b, inner);
  }

  // ----- The adapter

  class MongoAdapter {
    var docs: Database
    const schema: Schema
    const acknowledged: bool  // of the write concern

    constructor (schema: Schema, docs: Database, acknowledged: bool)
      ensures this.schema == schema && this.docs == docs && this.acknowledged == acknowledged
    {
      this.schema, this.docs, this.acknowledged := schema, docs, acknowledged;
    }

    /** The documents of `table` that a query selects. */
    ghost function Matched(table: string, query: (int, Record) -> bool): set<Key>
      reads this
    {
      set k | k in docs && k.table == table && query(k.id, docs[k])
    }

    /** `update_many({field: {$in: deleted}}, {$set: {field: None}})` */
    method NullOut(f: Field, deleted: set<Key>)
      requires WellFormed(schema) && Acts(schema, f, SET_NULL)
      modifies this
      ensures docs.Keys == old(docs).Keys
      ensures forall k | k in docs :: Weakened(schema, k.table, old(docs)[k], docs[k], deleted)
      ensures forall k | k in docs :: !PointsInto(k, docs[k], f, deleted)
    {
      docs := map k | k in docs ::
        if PointsInto(k, docs[k], f, deleted) then docs[k][f.name := Null] else docs[k];
      forall k | k in docs ensures Weakened(schema, k.table, old(docs)[k], docs[k], deleted) {
        if PointsInto(k, old(docs)[k], f, deleted) {
          assert NullHit(schema, k.table, f.name, old(docs)[k][f.name], deleted);
        }
      }
    }

    /** `for field in set_null: db(field.belongs(deleted)).update(...)` */
    method NullOutAll(fields: seq<Field>, deleted: set<Key>, ghost before: Database, ghost gone: set<Key>)
      requires WellFormed(schema) && forall f | f in fields :: Acts(schema, f, SET_NULL)
      requires Underway(schema, before, docs, gone, deleted)
      modifies this
      ensures docs.Keys == old(docs).Keys
      ensures forall k | k in docs :: Weakened(schema, k.table, old(docs)[k], docs[k], deleted)
      ensures Underway(schema, before, docs, gone, deleted)
      ensures CleanOf(docs, fields, deleted)
    {
      ghost var start := docs;
      for i := 0 to |fields|
        invariant docs.Keys == start.Keys
        invariant forall k | k in docs :: Weakened(schema, k.table, start[k], docs[k], deleted)
        invariant Underway(schema, before, docs, gone, deleted)
        invariant CleanOf(docs, fields[..i], deleted)
      {
        ghost var mid := docs;
        NullOut(fields[i], deleted);
        NullOutStep(schema, before, mid, docs, gone, deleted);
        NullOutCleans(schema, mid, docs, deleted, fields, i);
      }
      assert fields[..|fields|] == fields;
    }

    /** `delete_many({_id: {$in: deleted}})`, with its `deleted_count`. */
    method DeleteMany(deleted: set<Key>) returns (deletedCount: nat)
      modifies this
      ensures docs == map k | k in old(docs) && k !in deleted :: old(docs)[k]
      ensures deleted <= old(docs).Keys ==> deletedCount == |deleted|
    {
      deletedCount := |set k | k in docs && k in deleted|;
      assert deleted <= docs.Keys ==> deleted == set k | k in docs && k in deleted;
      docs := map k | k in docs && k !in deleted :: docs[k];
    }

    /** The fields that reference `table`, by referential action. */
    method FieldsToVisit(table: string) returns (cascade: seq<Field>, setNull: seq<Field>)
      ensures forall f :: f in cascade <==> Acts(schema, f, CASCADE) && f.ftype.target == table
      ensures forall f :: f in setNull <==> Acts(schema, f, SET_NULL) && f.ftype.target == table
    {
      cascade, setNull := [], [];
      var referees := if table in schema.referencedBy then schema.referencedBy[table] else [];
      for i := 0 to |referees|
        invariant forall f ::
                  f in cascade <==> f in referees[..i] && f.ftype == Reference(table) && f.ondelete == CASCADE
        invariant forall f ::
                  f in setNull <==> f in referees[..i] && f.ftype == Reference(table) && f.ondelete == SET_NULL
      {
        var field := referees[i];
        if field.ftype == Reference(table) {
          if field.ondelete == CASCADE {
            cascade := cascade + [field];
          }
          if field.ondelete == SET_NULL {
            setNull := setNull + [field];
          }
        }
      }
    }

    /** `db(field.belongs(deleted)).delete()` for `fields[i]`. */
    method CascadeField(fields: seq<Field>, i: nat, deleted: set<Key>, ghost before: Database, ghost start: set<Key>)
      returns (ghost gone: set<Key>)
      requires WellFormed(schema) && i < |fields| && Acts(schema, fields[i], CASCADE)
      requires Underway(schema, before, docs, start, deleted) && CleanOf(docs, fields[..i], deleted)
      modifies this
      ensures |docs| <= |old(docs)|
      ensures Underway(schema, before, docs, gone, deleted) && CleanOf(docs, fields[..i + 1], deleted)
      decreases |docs|, 1
    {
      ghost var seeds := Matched(fields[i].table, Belongs(fields[i], deleted));
      var _ := Delete(fields[i].table, Belongs(fields[i], deleted));
      ghost var more := old(docs).Keys - docs.Keys;
      NestedDelete(schema, before, old(docs), docs, start, deleted, fields[i], seeds, more);
      NestedCleans(schema, old(docs), docs, deleted, fields, i, seeds, more);
      gone := start + more;
    }

    /** `for field in cascade: db(field.belongs(deleted)).delete()` */
    method CascadeAll(fields: seq<Field>, deleted: set<Key>, ghost before: Database, ghost start: set<Key>)
      returns (ghost gone: set<Key>)
      requires WellFormed(schema) && forall f | f in fields :: Acts(schema, f, CASCADE)
      requires Underway(schema, before, docs, start, deleted)
      modifies this
      ensures Underway(schema, before, docs, gone, deleted)
      ensures CleanOf(docs, fields, deleted)
      decreases |docs|, 2
    {
      gone := start;
      for i := 0 to |fields|
        invariant |docs| <= |old(docs)|
        invariant Underway(schema, before, docs, gone, deleted)
        invariant CleanOf(docs, fields[..i], deleted)
      {
        gone := CascadeField(fields, i, deleted, before, gone);
      }
      assert fields[..|fields|] == fields;
    }

    method Delete(table: string, query: (int, Record) -> bool) returns (amount: nat)
      requires WellFormed(schema)
      modifies this
      ensures amount == |set k | k in old(docs) && k.table == table && query(k.id, old(docs)[k])|
      ensures RemovesExactly(schema, old(docs), docs, table, query)
      ensures NullsExactly(schema, old(docs), docs)
      ensures docs == AfterDelete(schema, old(docs), old(Matched(table, query)))
      ensures Completed(schema, old(docs), docs, old(Matched(table, query)), old(docs).Keys - docs.Keys)
      decreases |docs|, 0
    {
      ghost var before := docs;
      var deleted := set k | k in docs && k.table == table && query(k.id, docs[k]);
      // find references to deleted items
      var cascade, setNull := FieldsToVisit(table);
      // perform delete
      var deletedCount := DeleteMany(deleted);
      amount := if acknowledged then deletedCount else |deleted|;
      ghost var gone := deleted;
      RemovalStarts(schema, before, docs, deleted);
      // clean up any references
      if amount != 0 {
        gone := CascadeAll(cascade, deleted, before, deleted);
        ghost var cascaded := docs;
        NullOutAll(setNull, deleted, before, gone);
        CleanKept(schema, cascaded, docs, cascade, deleted, deleted);
      }
      Finish(schema, before, docs, table, cascade, setNull, deleted, gone);
      DeleteRemovesExactly(schema, before, table, query);
      DeleteNullsExactly(schema, before, deleted);
    }
  }

  /** `field.belongs(deleted)` */
  function Belongs(f: Field, deleted: set<Key>): (int, Record) -> bool {
    (id: int, r: Record) => PointsInto(Key(f.table, id), r, f, deleted)
  }

  // ----- The steps of one call

  /** Between two steps of a call that removed `deleted` itself and has removed `gone` so far. */
  ghost predicate Underway(schema: Schema, before: Database, now: Database, gone: set<Key>, deleted: set<Key>) {
    && Progress(schema, before, now, gone)
    && deleted <= gone <= Closure(schema, before, deleted)
    && Settled(schema, now, gone - deleted)
  }

  ghost predicate CleanOf(db: Database, fields: seq<Field>, deleted: set<Key>) {
    forall k, f | k in db && f in fields :: !PointsInto(k, db[k], f, deleted)
  }

  lemma RemovalStarts(schema: Schema, before: Database, now: Database, deleted: set<Key>)
    requires deleted <= before.Keys
    requires now == map k | k in before && k !in deleted :: before[k]
    ensures Underway(schema, before, now, deleted, deleted)
    ensures deleted != {} ==> |now| < |before|
  {
    ClosureIsLeastClosed(schema, before, deleted);
    assert now.Keys == before.Keys - deleted;
    FewerKeys(before, now);
  }

  lemma FewerKeys(before: Database, now: Database)
    requires now.Keys <= before.Keys
    ensures |now| == |before| - |before.Keys - now.Keys|
  {
    assert before.Keys == now.Keys + (before.Keys - now.Keys);
  }

  lemma CleanKept(schema: Schema, a: Database, b: Database, fields: seq<Field>, gone: set<Key>, deleted: set<Key>)
    requires b.Keys <= a.Keys
    requires forall k | k in b :: Weakened(schema, k.table, a[k], b[k], gone)
    requires CleanOf(a, fields, deleted)
    ensures CleanOf(b, fields, deleted)
  {
    forall k, f | k in b && f in fields ensures !PointsInto(k, b[k], f, deleted) {
      PointsKept(schema, k, f, a[k], b[k], gone, deleted);
    }
  }

  lemma SettledUnion(schema: Schema, db: Database, a: set<Key>, b: set<Key>)
    requires Settled(schema, db, a) && Settled(schema, db, b)
    ensures Settled(schema, db, a + b)
  {
    forall k, f | k in db && Guarded(schema, f) ensures !PointsInto(k, db[k], f, a + b) {
      assert !PointsInto(k, db[k], f, a) && !PointsInto(k, db[k], f, b);
    }
  }

  lemma SeedsInClosure(schema: Schema, before: Database, mid: Database, gone: set<Key>, deleted: set<Key>,
                       field: Field, seeds: set<Key>)
    requires WellFormed(schema) && Acts(schema, field, CASCADE) && Underway(schema, before, mid, gone, deleted)
    requires seeds == set k | k in mid && k.table == field.table && PointsInto(k, mid[k], field, deleted)
    requires deleted <= before.Keys
    ensures seeds <= Closure(schema, before, deleted)
  {
    ClosureIsLeastClosed(schema, before, deleted);
    forall k | k in seeds ensures k in Closure(schema, before, deleted) {
      CascadeValueKept(schema, field, k, before[k], mid[k], gone);
      assert PointsInto(k, before[k], field, Closure(schema, before, deleted));
    }
  }

  /** One turn of the CASCADE loop. */
  lemma NestedDelete(schema: Schema, before: Database, mid: Database, now: Database, gone: set<Key>, deleted: set<Key>,
                     field: Field, seeds: set<Key>, more: set<Key>)
    requires WellFormed(schema) && Acts(schema, field, CASCADE) && Underway(schema, before, mid, gone, deleted)
    requires seeds == set k | k in mid && k.table == field.table && PointsInto(k, mid[k], field, deleted)
    requires Completed(schema, mid, now, seeds, more)
    ensures Underway(schema, before, now, gone + more, deleted)
  {
    SeedsInClosure(schema, before, mid, gone, deleted, field, seeds);
    NestedClosureWithin(schema, before, mid, gone, seeds, deleted);
    ProgressComposes(schema, before, mid, now, gone, more);
    SettledKept(schema, mid, now, more, gone - deleted);
    SettledUnion(schema, now, gone - deleted, more);
    SettledPart(schema, now, (gone - deleted) + more, gone + more - deleted);
  }

  lemma SettledPart(schema: Schema, db: Database, large: set<Key>, small: set<Key>)
    requires small <= large && Settled(schema, db, large)
    ensures Settled(schema, db, small)
  {
    forall k, f | k in db && Guarded(schema, f) ensures !PointsInto(k, db[k], f, small) {
      assert !PointsInto(k, db[k], f, large);
    }
  }

  lemma NestedCleans(schema: Schema, mid: Database, now: Database, deleted: set<Key>,
                     fields: seq<Field>, i: nat, seeds: set<Key>, more: set<Key>)
    requires i < |fields| && CleanOf(mid, fields[..i], deleted)
    requires seeds == set k | k in mid && k.table == fields[i].table && PointsInto(k, mid[k], fields[i], deleted)
    requires Progress(schema, mid, now, more) && seeds <= more
    ensures CleanOf(now, fields[..i + 1], deleted)
    ensures |now| <= |mid|
  {
    CleanKept(schema, mid, now, fields[..i], more, deleted);
    forall k | k in now ensures !PointsInto(k, now[k], fields[i], deleted) {
      assert k !in seeds;
      PointsKept(schema, k, fields[i], mid[k], now[k], more, deleted);
    }
    assert fields[..i + 1] == fields[..i] + [fields[i]];
    assert |now.Keys| == |mid.Keys| - |more|;
  }

  lemma NullOutCleans(schema: Schema, mid: Database, now: Database, deleted: set<Key>, fields: seq<Field>, i: nat)
    requires i < |fields| && CleanOf(mid, fields[..i], deleted)
    requires mid.Keys == now.Keys && forall k | k in now :: Weakened(schema, k.table, mid[k], now[k], deleted)
    requires forall k | k in now :: !PointsInto(k, now[k], fields[i], deleted)
    ensures CleanOf(now, fields[..i + 1], deleted)
  {
    CleanKept(schema, mid, now, fields[..i], deleted, deleted);
    assert fields[..i + 1] == fields[..i] + [fields[i]];
  }

  /** One turn of the SET NULL loop. */
  lemma NullOutStep(schema: Schema, before: Database, mid: Database, now: Database, gone: set<Key>, deleted: set<Key>)
    requires Underway(schema, before, mid, gone, deleted)
    requires mid.Keys == now.Keys && forall k | k in now :: Weakened(schema, k.table, mid[k], now[k], deleted)
    ensures Underway(schema, before, now, gone, deleted)
  {
    forall k | k in now ensures Weakened(schema, k.table, before[k], now[k], gone) {
      assert Weakened(schema, k.table, before[k], mid[k], gone);
      forall n | n in before[k] && NullHit(schema, k.table, n, mid[k][n], deleted)
        ensures NullHit(schema, k.table, n, mid[k][n], gone)
      {
        NullHitGrows(schema, k.table, n, mid[k][n], deleted, gone);
      }
    }
    forall k, f | k in now && Guarded(schema, f) ensures !PointsInto(k, now[k], f, gone - deleted) {
      PointsKept(schema, k, f, mid[k], now[k], deleted, gone - deleted);
    }
  }

  lemma SettledAtEnd(schema: Schema, db: Database, table: string, cascade: seq<Field>, setNull: seq<Field>,
                     deleted: set<Key>, gone: set<Key>)
    requires forall f | Guarded(schema, f) && f.ftype.target == table :: f in cascade || f in setNull
    requires forall k | k in deleted :: k.table == table
    requires Settled(schema, db, gone - deleted)
    requires deleted != {} ==> CleanOf(db, cascade, deleted) && CleanOf(db, setNull, deleted)
    ensures Settled(schema, db, gone)
  {
    forall k, f | k in db && Guarded(schema, f) ensures !PointsInto(k, db[k], f, gone) {
      assert !PointsInto(k, db[k], f, gone - deleted);
      assert !PointsInto(k, db[k], f, deleted) by {
        if f.ftype.target == table && deleted != {} {
          assert f in cascade || f in setNull;
        }
      }
    }
  }

  lemma Finish(schema: Schema, before: Database, now: Database, table: string,
               cascade: seq<Field>, setNull: seq<Field>, deleted: set<Key>, gone: set<Key>)
    requires WellFormed(schema) && Underway(schema, before, now, gone, deleted)
    requires forall f | Guarded(schema, f) && f.ftype.target == table :: f in cascade || f in setNull
    requires forall k | k in deleted :: k.table == table
    requires deleted != {} ==> CleanOf(now, cascade, deleted) && CleanOf(now, setNull, deleted)
    ensures Completed(schema, before, now, deleted, before.Keys - now.Keys)
    ensures now == AfterDelete(schema, before, deleted)
  {
    SettledAtEnd(schema, now, table, cascade, setNull, deleted, gone);
    assert gone == before.Keys - now.Keys;
    CompletedIsAfterDelete(schema, before, now, deleted, gone);
  }

  // ----- The closure, record by record

  lemma PulledIsReference(schema: Schema, db: Database, k: Key, f: Field, targets: set<Key>)
    requires k in db && Acts(schema, f, CASCADE) && PointsInto(k, db[k], f, targets)
    ensures var p := Key(f.ftype.target, db[k][f.name].id); p in targets && Refers(schema, db, CASCADE, k, p)
  {
  }

  lemma ReferenceIsPulled(schema: Schema, db: Database, k: Key, p: Key, targets: set<Key>)
    requires p in targets && Refers(schema, db, CASCADE, k, p)
    ensures Dragged(schema, k, db[k], targets)
  {
    var f :| && Acts(schema, f, CASCADE) && f.ftype == Reference(p.table) && f.table == k.table
             && f.name in db[k] && db[k][f.name] == Id(p.id);
    assert PointsInto(k, db[k], f, targets);
  }

  lemma {:induction false} RoundInDatabase(schema: Schema, db: Database, seeds: set<Key>, n: nat)
    requires seeds <= db.Keys
    ensures Round(schema, db, seeds, n) <= db.Keys
  {
    if n > 0 {
      RoundInDatabase(schema, db, seeds, n - 1);
    }
  }

  /** Every record of a round hangs on a seed. */
  lemma {:induction false} ChainTo(schema: Schema, db: Database, seeds: set<Key>, k: Key, n: nat)
    returns (path: seq<Key>)
    requires seeds <= db.Keys && k in Round(schema, db, seeds, n)
    ensures Chain(schema, db, path) && path[0] in seeds && path[|path| - 1] == k
    decreases n
  {
    if n == 0 {
      path := [k];
    } else if k in Round(schema, db, seeds, n - 1) {
      path := ChainTo(schema, db, seeds, k, n - 1);
    } else {
      var f :| Acts(schema, f, CASCADE) && PointsInto(k, db[k], f, Round(schema, db, seeds, n - 1));
      PulledIsReference(schema, db, k, f, Round(schema, db, seeds, n - 1));
      var p := Key(f.ftype.target, db[k][f.name].id);
      path := ChainTo(schema, db, seeds, p, n - 1);
      ChainGrows(schema, db, path, k);
      path := path + [k];
    }
  }

  lemma ChainGrows(schema: Schema, db: Database, path: seq<Key>, k: Key)
    requires Chain(schema, db, path) && Refers(schema, db, CASCADE, k, path[|path| - 1])
    ensures Chain(schema, db, path + [k])
  {
  }

  /** And whatever hangs on a seed is in the closure. */
  lemma {:induction false} ChainInClosure(schema: Schema, db: Database, seeds: set<Key>, path: seq<Key>, i: nat)
    requires seeds <= db.Keys && Chain(schema, db, path) && path[0] in seeds && i < |path|
    ensures path[i] in Closure(schema, db, seeds)
  {
    ClosureIsLeastClosed(schema, db, seeds);
    if i > 0 {
      ChainInClosure(schema, db, seeds, path, i - 1);
      ReferenceIsPulled(schema, db, path[i], path[i - 1], Closure(schema, db, seeds));
    }
  }

  lemma InClosureIffChain(schema: Schema, db: Database, seeds: set<Key>, k: Key)
    requires seeds <= db.Keys && k in db
    ensures k in Closure(schema, db, seeds) <==>
            exists path: seq<Key> :: Chain(schema, db, path) && path[|path| - 1] == k && path[0] in seeds
  {
    if k in Closure(schema, db, seeds) {
      var n: nat :| k in Round(schema, db, seeds, n);
      var path := ChainTo(schema, db, seeds, k, n);
    }
    if path: seq<Key> :| Chain(schema, db, path) && path[|path| - 1] == k && path[0] in seeds {
      ChainInClosure(schema, db, seeds, path, |path| - 1);
    }
  }

  lemma InClosureIffRefers(schema: Schema, db: Database, seeds: set<Key>, k: Key)
    requires seeds <= db.Keys && k in db
    ensures k in Closure(schema, db, seeds) <==>
            k in seeds || exists p :: p in Closure(schema, db, seeds) && Refers(schema, db, CASCADE, k, p)
  {
    var c := Closure(schema, db, seeds);
    ClosureIsLeastClosed(schema, db, seeds);
    if k in c {
      var n: nat :| k in Round(schema, db, seeds, n);
      var path := ChainTo(schema, db, seeds, k, n);
      if |path| > 1 {
        ChainInClosure(schema, db, seeds, path, |path| - 2);
      }
    }
    if p :| p in c && Refers(schema, db, CASCADE, k, p) {
      ReferenceIsPulled(schema, db, k, p, c);
    }
  }

  lemma DeleteRemovesExactly(schema: Schema, db: Database, table: string, query: (int, Record) -> bool)
    ensures var seeds := set k | k in db && k.table == table && query(k.id, db[k]);
            RemovesExactly(schema, db, AfterDelete(schema, db, seeds), table, query)
  {
    var seeds := set k | k in db && k.table == table && query(k.id, db[k]);
    var after := AfterDelete(schema, db, seeds);
    forall k | k in db
      ensures k !in after <==>
              || (k.table == table && query(k.id, db[k]))
              || exists p :: p in db && p !in after && Refers(schema, db, CASCADE, k, p)
      ensures k !in after <==>
              exists path: seq<Key> ::
                && Chain(schema, db, path) && path[|path| - 1] == k
                && path[0].table == table && query(path[0].id, db[path[0]])
    {
      InClosureIffRefers(schema, db, seeds, k);
      InClosureIffChain(schema, db, seeds, k);
      assert forall path: seq<Key> | Chain(schema, db, path) ::
          path[0] in seeds <==> path[0].table == table && query(path[0].id, db[path[0]]);
      assert forall p :: p in Closure(schema, db, seeds) <==> p in db && p !in after;
    }
  }

  lemma DeleteNullsExactly(schema: Schema, db: Database, seeds: set<Key>)
    requires seeds <= db.Keys
    ensures NullsExactly(schema, db, AfterDelete(schema, db, seeds))
  {
    var gone, after := Closure(schema, db, seeds), AfterDelete(schema, db, seeds);
    assert forall p :: p in gone <==> p in db && p !in after;
    forall k, n | k in after && n in db[k]
      ensures NamesRemoved(schema, db, after, k, n) <==> NullHit(schema, k.table, n, db[k][n], gone)
    {
      if NullHit(schema, k.table, n, db[k][n], gone) {
        var f :| Acts(schema, f, SET_NULL) && f.table == k.table && f.name == n
            && Key(f.ftype.target, db[k][n].id) in gone;
        var p := Key(f.ftype.target, db[k][n].id);
        assert f.ftype == Reference(p.table) && p in db && p !in after && db[k][n] == Id(p.id);
      }
      if f: Field, p: Key :|
        && Acts(schema, f, SET_NULL) && f.ftype == Reference(p.table) && f.table == k.table && f.name == n
        && db[k][n] == Id(p.id) && p in db && p !in after
      {
        assert p == Key(f.ftype.target, db[k][n].id) && p in gone;
      }
    }
  }

  // ----- What the specification means for a caller

  /** Every CASCADE or SET NULL field that holds an id finds its document. */
  ghost predicate NoDangling(schema: Schema, db: Database) {
    forall k, f | k in db && Guarded(schema, f)
                     && f.table == k.table && f.name in db[k] && db[k][f.name].Id? ::
      Key(f.ftype.target, db[k][f.name].id) in db
  }

  lemma AfterDeleteCompletes(schema: Schema, db: Database, seeds: set<Key>)
    requires WellFormed(schema) && seeds <= db.Keys
    ensures Completed(schema, db, AfterDelete(schema, db, seeds), seeds, Closure(schema, db, seeds))
  {
    var gone := Closure(schema, db, seeds);
    var after := AfterDelete(schema, db, seeds);
    ClosureIsLeastClosed(schema, db, seeds);
    forall k, f | k in after && Guarded(schema, f) ensures !PointsInto(k, after[k], f, gone) {
      assert !Dragged(schema, k, db[k], gone);
      if f.table == k.table && f.name in db[k] && db[k][f.name].Id? && Key(f.ftype.target, db[k][f.name].id) in gone {
        assert f.ondelete == CASCADE ==> !PointsInto(k, db[k], f, gone);
        assert f.ondelete == SET_NULL ==> NullHit(schema, k.table, f.name, db[k][f.name], gone);
      }
    }
  }

  /** Deleting keeps a database free of dangling references. */
  lemma DeleteKeepsIntegrity(schema: Schema, db: Database, seeds: set<Key>)
    requires WellFormed(schema) && NoDangling(schema, db) && seeds <= db.Keys
    ensures NoDangling(schema, AfterDelete(schema, db, seeds))
  {
    var gone := Closure(schema, db, seeds);
    var after := AfterDelete(schema, db, seeds);
    AfterDeleteCompletes(schema, db, seeds);
    forall k, f | k in after && Guarded(schema, f)
                  && f.table == k.table && f.name in after[k] && after[k][f.name].Id?
      ensures Key(f.ftype.target, after[k][f.name].id) in after
    {
      assert Weakened(schema, k.table, db[k], after[k], gone);
      assert Key(f.ftype.target, db[k][f.name].id) in db;
      assert !PointsInto(k, after[k], f, gone);
    }
  }

  /** Two deletes in a row, the second on what the first left of its targets, are one delete of both. */
  lemma DeletesCompose(schema: Schema, db: Database, first: set<Key>, second: set<Key>)
    requires WellFormed(schema) && first <= db.Keys && second <= db.Keys
    ensures var between := AfterDelete(schema, db, first);
            AfterDelete(schema, between, second * between.Keys) == AfterDelete(schema, db, first + second)
  {
    var both := first + second;
    var between := AfterDelete(schema, db, first);
    var rest := second * between.Keys;
    var after := AfterDelete(schema, between, rest);
    var gone1 := Closure(schema, db, first);
    var gone2 := Closure(schema, between, rest);
    AfterDeleteCompletes(schema, db, first);
    AfterDeleteCompletes(schema, between, rest);
    ClosureIsLeastClosed(schema, db, both);
    ClosureMinimal(schema, db, first, Closure(schema, db, both));
    NestedClosureWithin(schema, db, between, gone1, rest, both);
    ProgressComposes(schema, db, between, after, gone1, gone2);
    SettledKept(schema, between, after, gone2, gone1);
    SettledUnion(schema, after, gone1, gone2);
    CompletedIsAfterDelete(schema, db, after, both, gone1 + gone2);
  }
}
