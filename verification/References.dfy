/** Reference registration: every table definition links its reference fields to the tables they
    point at, through a pending list when the target is not there yet.
  */
module References {
  import opened Options

  /** "reference t", "reference t.c" and their list forms; `Plain` is everything else. */
  datatype FieldType = Plain | Reference(target: string, column: Option<string>, isList: bool)

  datatype Field = Field(table: string, name: string, ftype: FieldType)

  datatype TableDecl = TableDecl(name: string, fields: seq<Field>, keyed: bool)

  /** The list a field goes to: `_referenced_by` or `_referenced_by_list` of a table. */
  datatype BackList = BackList(table: string, isList: bool)

  /** `field.referent` once set: None, the id of a table, or one of its columns. */
  datatype Referent = Nothing | IdOf(table: string) | ColumnOf(table: string, column: string)

  datatype Catalog = Catalog(
    tables: map<string, TableDecl>,
    back: map<BackList, seq<Field>>,
    references: map<string, seq<Field>>,
    referent: map<Field, Referent>,
    pending: map<string, seq<Field>>)

  const EMPTY: Catalog := Catalog(map[], map[], map[], map[], map[])

  function Get<K, V>(m: map<K, seq<V>>, k: K): seq<V> { if k in m then m[k] else [] }

  function HasColumn(d: TableDecl, c: string): bool { exists i :: 0 <= i < |d.fields| && d.fields[i].name == c }

  /** A reference to a column needs a keyed target that has it. */
  predicate Resolves(target: TableDecl, f: Field)
    requires f.ftype.Reference?
  {
    f.ftype.column.None? || (target.keyed && HasColumn(target, f.ftype.column.value))
  }

  function ReferentOf(f: Field): Referent {
    match f.ftype
    case Plain => Nothing
    case Reference(t, None, _) => IdOf(t)
    case Reference(t, Some(c), _) => ColumnOf(t, c)
  }

  function BackListOf(f: Field): BackList
    requires f.ftype.Reference?
  {
    BackList(f.ftype.target, f.ftype.isList)
  }

  /** One turn of the loop over the new table's own fields; None when it raises. */
  function Register(s: Catalog, f: Field): Option<Catalog> {
    match f.ftype
    case Plain => Some(s.(referent := s.referent[f := Nothing]))
    case Reference(t, _, _) =>
      if t !in s.tables then Some(s.(pending := s.pending[t := Get(s.pending, t) + [f]]))
      else if !Resolves(s.tables[t], f) then None
      else Some(s.(back := s.back[BackListOf(f) := Get(s.back, BackListOf(f)) + [f]],
                   referent := s.referent[f := ReferentOf(f)],
                   references := s.references[f.table := Get(s.references, f.table) + [f]]))
  }

  /** One turn of the loop over the fields that were waiting for the new table. */
  function Adopt(s: Catalog, self: TableDecl, f: Field): Option<Catalog> {
    if f.ftype.Plain? || !Resolves(self, f) then None
    else Some(s.(back := s.back[BackListOf(f) := Get(s.back, BackListOf(f)) + [f]],
                 referent := s.referent[f := ReferentOf(f)]))
  }

  function RegisterAll(s: Catalog, fields: seq<Field>, n: nat): Option<Catalog>
    requires n <= |fields|
  {
    if n == 0 then Some(s)
    else
      match RegisterAll(s, fields, n - 1)
      case None => None
      case Some(r) => Register(r, fields[n - 1])
  }

  function AdoptAll(s: Catalog, self: TableDecl, fields: seq<Field>, n: nat): Option<Catalog>
    requires n <= |fields|
  {
    if n == 0 then Some(s)
    else
      match AdoptAll(s, self, fields, n - 1)
      case None => None
      case Some(r) => Adopt(r, self, fields[n - 1])
  }

  /** The table's own lists emptied. */
  function ClearLists(s: Catalog, d: TableDecl): Catalog {
    s.(back := s.back[BackList(d.name, false) := []][BackList(d.name, true) := []],
       references := s.references[d.name := []])
  }

  /** `_create_references`, while the table is not yet one of `tables`. */
  function Link(s: Catalog, d: TableDecl): Option<Catalog> {
    match RegisterAll(ClearLists(s, d), d.fields, |d.fields|)
    case None => None
    case Some(r) =>
      var referees := Get(r.pending, d.name);
      AdoptAll(r.(pending := r.pending - {d.name}), d, referees, |referees|)
  }

  /** `define_table`: the references first, then the name in `tables`. */
  function Define(s: Catalog, d: TableDecl): Option<Catalog> {
    if d.name in s.tables then None
    else
      match Link(s, d)
      case None => None
      case Some(a) => Some(a.(tables := a.tables[d.name := d]))
  }

  class Database {
    var catalog: Catalog

    constructor ()
      ensures catalog == EMPTY
    {
      catalog := EMPTY;
    }

    method CreateReferences(self: TableDecl) returns (ok: bool)
      modifies this
      ensures ok == Link(old(catalog), self).Some?
      ensures ok ==> Link(old(catalog), self) == Some(catalog)
    {
      catalog := ClearLists(catalog, self);
      ghost var start := catalog;
      for i := 0 to |self.fields|
        invariant RegisterAll(start, self.fields, i) == Some(catalog)
      {
        var field := self.fields[i];
        var r := Register(catalog, field);
        if r.None? {
          RegisterFails(start, self.fields, i + 1);
          return false;
        }
        catalog := r.value;
      }
      var referees := Get(catalog.pending, self.name);
      catalog := catalog.(pending := catalog.pending - {self.name});
      ghost var popped := catalog;
      for i := 0 to |referees|
        invariant AdoptAll(popped, self, referees, i) == Some(catalog)
      {
        var r := Adopt(catalog, self, referees[i]);
        if r.None? {
          AdoptFails(popped, self, referees, i + 1);
          return false;
        }
        catalog := r.value;
      }
      ok := true;
    }

    method DefineTable(d: TableDecl) returns (ok: bool)
      modifies this
      ensures ok == Define(old(catalog), d).Some?
      ensures ok ==> Define(old(catalog), d) == Some(catalog)
      ensures d.name in old(catalog).tables ==> !ok
      ensures var tables := old(catalog).tables;
              WellNamed(d) && d.name !in tables && Describes(old(catalog), tables) && AllResolve(tables) ==>
                && (ok <==> Sound(tables[d.name := d]))
                && (ok ==> Registry(catalog, tables[d.name := d]))
    {
      RegistryKept(catalog, d);
      if d.name in catalog.tables {
        return false;
      }
      ok := CreateReferences(d);
      if ok {
        catalog := catalog.(tables := catalog.tables[d.name := d]);
      }
    }
  }

  lemma {:induction false} RegisterFails(s: Catalog, fields: seq<Field>, n: nat)
    requires n <= |fields| && RegisterAll(s, fields, n) == None
    ensures RegisterAll(s, fields, |fields|) == None
    decreases |fields| - n
  {
    if n < |fields| {
      RegisterFails(s, fields, n + 1);
    }
  }

  lemma {:induction false} AdoptFails(s: Catalog, self: TableDecl, fields: seq<Field>, n: nat)
    requires n <= |fields| && AdoptAll(s, self, fields, n) == None
    ensures AdoptAll(s, self, fields, |fields|) == None
    decreases |fields| - n
  {
    if n < |fields| {
      AdoptFails(s, self, fields, n + 1);
    }
  }

  // ----- Where every field is

  function Count<K>(m: map<K, seq<Field>>, k: K, f: Field): nat { multiset(Get(m, k))[f] }

  ghost predicate BackIs(s: Catalog, settled: set<Field>) {
    forall b, f {:trigger Count(s.back, b, f)} ::
      Count(s.back, b, f) == if f in settled && f.ftype.Reference? && BackListOf(f) == b then 1 else 0
  }

  ghost predicate PendingIs(s: Catalog, waiting: set<Field>) {
    && (forall t, f {:trigger Count(s.pending, t, f)} ::
          Count(s.pending, t, f) == if f in waiting && f.ftype.Reference? && f.ftype.target == t then 1 else 0)
    && forall t | t in s.pending :: s.pending[t] != []
  }

  ghost predicate ReferentsAre(s: Catalog, settled: set<Field>) {
    forall f :: (f in s.referent <==> f in settled) && (f in settled ==> s.referent[f] == ReferentOf(f))
  }

  /** The settled fields are linked, once each; the waiting ones are pending, once each; nothing else is. */
  ghost predicate Linked(s: Catalog, settled: set<Field>, waiting: set<Field>) {
    BackIs(s, settled) && PendingIs(s, waiting) && ReferentsAre(s, settled)
  }

  lemma AppendCounts<K>(m: map<K, seq<Field>>, k: K, f: Field)
    ensures forall l, g {:trigger Count(m[k := Get(m, k) + [f]], l, g)} ::
              Count(m[k := Get(m, k) + [f]], l, g) == Count(m, l, g) + if l == k && g == f then 1 else 0
  {
  }

  lemma LinkKept(s: Catalog, f: Field, settled: set<Field>, waiting: set<Field>, r: Catalog)
    requires Linked(s, settled, waiting) && f.ftype.Reference? && f !in settled
    requires r.back == s.back[BackListOf(f) := Get(s.back, BackListOf(f)) + [f]]
    requires r.referent == s.referent[f := ReferentOf(f)] && r.pending == s.pending
    ensures Linked(r, settled + {f}, waiting)
  {
    AppendCounts(s.back, BackListOf(f), f);
    forall b, g ensures Count(r.back, b, g)
        == if g in settled + {f} && g.ftype.Reference? && BackListOf(g) == b then 1 else 0 {
      assert Count(s.back, b, g) == if g in settled && g.ftype.Reference? && BackListOf(g) == b then 1 else 0;
    }
    forall t, g ensures Count(r.pending, t, g)
        == if g in waiting && g.ftype.Reference? && g.ftype.target == t then 1 else 0 {
      assert Count(s.pending, t, g) == if g in waiting && g.ftype.Reference? && g.ftype.target == t then 1 else 0;
    }
  }

  lemma WaitKept(s: Catalog, f: Field, settled: set<Field>, waiting: set<Field>, r: Catalog)
    requires Linked(s, settled, waiting) && f.ftype.Reference? && f !in waiting
    requires r.pending == s.pending[f.ftype.target := Get(s.pending, f.ftype.target) + [f]]
    requires r.referent == s.referent && r.back == s.back
    ensures Linked(r, settled, waiting + {f})
  {
    AppendCounts(s.pending, f.ftype.target, f);
    forall t, g ensures Count(r.pending, t, g)
        == if g in waiting + {f} && g.ftype.Reference? && g.ftype.target == t then 1 else 0 {
      assert Count(s.pending, t, g) == if g in waiting && g.ftype.Reference? && g.ftype.target == t then 1 else 0;
    }
    forall b, g ensures Count(r.back, b, g)
        == if g in settled && g.ftype.Reference? && BackListOf(g) == b then 1 else 0 {
      assert Count(s.back, b, g) == if g in settled && g.ftype.Reference? && BackListOf(g) == b then 1 else 0;
    }
  }

  // ----- Definitions as a set

  ghost predicate WellNamed(d: TableDecl) {
    && (forall i | 0 <= i < |d.fields| :: d.fields[i].table == d.name)
    && forall i, j | 0 <= i < j < |d.fields| :: d.fields[i] != d.fields[j]
  }

  ghost function FieldsOf(tables: map<string, TableDecl>): set<Field> {
    set t, f | t in tables && f in tables[t].fields :: f
  }

  ghost function Settled(tables: map<string, TableDecl>): set<Field> {
    set f | f in FieldsOf(tables) && (f.ftype.Reference? ==> f.ftype.target in tables)
  }

  ghost function Waiting(tables: map<string, TableDecl>): set<Field> {
    set f | f in FieldsOf(tables) && f.ftype.Reference? && f.ftype.target !in tables
  }

  /** What the catalog must be for a set of definitions, whatever their order was. */
  ghost predicate Describes(s: Catalog, tables: map<string, TableDecl>) {
    && s.tables == tables
    && (forall t | t in tables :: tables[t].name == t && WellNamed(tables[t]))
    && (forall t, l | t in tables :: BackList(t, l) in s.back)
    && (forall b | b in s.back :: b.table in tables)
    && Linked(s, Settled(tables), Waiting(tables))
  }

  // ----- The catalog, list by list

  /** A field of a defined table that refers to a defined table is in one list of that table, the plain or the
      list back-references as its type says, and its referent is the table's id or the column it names. A
      field that refers to an undefined table waits under that name and has no referent. */
  ghost predicate Registry(s: Catalog, tables: map<string, TableDecl>) {
    && s.tables == tables
    && (forall t, l, f ::
          multiset(Get(s.back, BackList(t, l)))[f]
          == if Declared(tables, f) && t in tables && f.ftype.Reference? && f.ftype.target == t && f.ftype.isList == l
             then 1 else 0)
    && (forall t, f ::
          multiset(Get(s.pending, t))[f]
          == if Declared(tables, f) && t !in tables && f.ftype.Reference? && f.ftype.target == t then 1 else 0)
    && (forall f :: f in s.referent <==> Declared(tables, f) && (f.ftype.Reference? ==> f.ftype.target in tables))
    && forall f | f in s.referent ::
         s.referent[f] == if f.ftype.Plain? then Nothing
                          else if f.ftype.column.None? then IdOf(f.ftype.target)
                          else ColumnOf(f.ftype.target, f.ftype.column.value)
  }

  ghost predicate Declared(tables: map<string, TableDecl>, f: Field) {
    f.table in tables && f in tables[f.table].fields
  }

  /** A reference to a column of a defined table finds a keyed table that has the column. */
  ghost predicate Sound(tables: map<string, TableDecl>) {
    forall f | Declared(tables, f) && f.ftype.Reference? && f.ftype.target in tables && f.ftype.column.Some? ::
      && tables[f.ftype.target].keyed
      && exists g :: g in tables[f.ftype.target].fields && g.name == f.ftype.column.value
  }

  lemma DeclaredFields(tables: map<string, TableDecl>)
    requires forall t | t in tables :: tables[t].name == t && WellNamed(tables[t])
    ensures forall f :: Declared(tables, f) <==> f in FieldsOf(tables)
  {
    forall f ensures Declared(tables, f) <==> f in FieldsOf(tables) {
      if f in FieldsOf(tables) {
        var t :| t in tables && f in tables[t].fields;
        assert f.table == t;
      }
    }
  }

  lemma DescribesIsRegistry(s: Catalog, tables: map<string, TableDecl>)
    requires Describes(s, tables)
    ensures Registry(s, tables)
  {
    DeclaredFields(tables);
    forall t, l, f
      ensures multiset(Get(s.back, BackList(t, l)))[f]
              == if Declared(tables, f) && t in tables && f.ftype.Reference? && f.ftype.target == t
                    && f.ftype.isList == l then 1 else 0
    {
      assert Count(s.back, BackList(t, l), f)
          == if f in Settled(tables) && f.ftype.Reference? && BackListOf(f) == BackList(t, l) then 1 else 0;
    }
    forall t, f
      ensures multiset(Get(s.pending, t))[f]
              == if Declared(tables, f) && t !in tables && f.ftype.Reference? && f.ftype.target == t then 1 else 0
    {
      assert Count(s.pending, t, f)
          == if f in Waiting(tables) && f.ftype.Reference? && f.ftype.target == t then 1 else 0;
    }
    forall f ensures f in s.referent <==> Declared(tables, f) && (f.ftype.Reference? ==> f.ftype.target in tables) {
      assert f in s.referent <==> f in Settled(tables);
    }
    forall f | f in s.referent
      ensures s.referent[f] == if f.ftype.Plain? then Nothing
                               else if f.ftype.column.None? then IdOf(f.ftype.target)
                               else ColumnOf(f.ftype.target, f.ftype.column.value)
    {
      assert f in Settled(tables) && s.referent[f] == ReferentOf(f);
    }
    assert forall f :: f in s.referent <==> Declared(tables, f) && (f.ftype.Reference? ==> f.ftype.target in tables);
  }

  lemma AllResolveIsSound(tables: map<string, TableDecl>)
    requires forall t | t in tables :: tables[t].name == t && WellNamed(tables[t])
    ensures AllResolve(tables) <==> Sound(tables)
  {
    DeclaredFields(tables);
    forall d: TableDecl, c: string ensures HasColumn(d, c) <==> exists g :: g in d.fields && g.name == c {
      if HasColumn(d, c) {
        var i :| 0 <= i < |d.fields| && d.fields[i].name == c;
        assert d.fields[i] in d.fields;
      }
    }
    forall f | Declared(tables, f) && f.ftype.Reference? && f.ftype.target in tables
      ensures Resolves(tables[f.ftype.target], f) <==>
              f.ftype.column.Some? ==>
                && tables[f.ftype.target].keyed
                && exists g :: g in tables[f.ftype.target].fields && g.name == f.ftype.column.value
    {
      if f.ftype.column.Some? {
        assert HasColumn(tables[f.ftype.target], f.ftype.column.value) <==>
          exists g :: g in tables[f.ftype.target].fields && g.name == f.ftype.column.value;
      }
    }
  }

  lemma RegistryKept(s: Catalog, d: TableDecl)
    ensures WellNamed(d) && d.name !in s.tables && Describes(s, s.tables) && AllResolve(s.tables) ==>
              && (Define(s, d).Some? <==> Sound(s.tables[d.name := d]))
              && (Define(s, d).Some? ==> Registry(Define(s, d).value, s.tables[d.name := d]))
  {
    if WellNamed(d) && d.name !in s.tables && Describes(s, s.tables) && AllResolve(s.tables) {
      DefineKeepsDescription(s, d, s.tables);
      AllResolveIsSound(s.tables[d.name := d]);
      if Define(s, d).Some? {
        DescribesIsRegistry(Define(s, d).value, s.tables[d.name := d]);
      }
    }
  }

  /** Every reference whose target is defined resolves. */
  ghost predicate AllResolve(tables: map<string, TableDecl>) {
    forall f | f in FieldsOf(tables) && f.ftype.Reference? && f.ftype.target in tables ::
      Resolves(tables[f.ftype.target], f)
  }

  // ----- One definition

  ghost function OwnSettled(d: TableDecl, tables: map<string, TableDecl>, n: nat): set<Field>
    requires n <= |d.fields|
  {
    set i | 0 <= i < n && (d.fields[i].ftype.Reference? ==> d.fields[i].ftype.target in tables) :: d.fields[i]
  }

  ghost function OwnWaiting(d: TableDecl, tables: map<string, TableDecl>, n: nat): set<Field>
    requires n <= |d.fields|
  {
    set i | 0 <= i < n && d.fields[i].ftype.Reference? && d.fields[i].ftype.target !in tables :: d.fields[i]
  }

  ghost predicate OwnResolve(d: TableDecl, tables: map<string, TableDecl>, n: nat)
    requires n <= |d.fields|
  {
    forall i | 0 <= i < n && d.fields[i].ftype.Reference? && d.fields[i].ftype.target in tables ::
      Resolves(tables[d.fields[i].ftype.target], d.fields[i])
  }

  lemma ClearedLinked(s: Catalog, d: TableDecl, tables: map<string, TableDecl>)
    requires Describes(s, tables) && d.name !in tables
    ensures Linked(ClearLists(s, d), Settled(tables), Waiting(tables))
  {
    var r := ClearLists(s, d);
    forall b, f ensures Count(r.back, b, f)
        == if f in Settled(tables) && f.ftype.Reference? && BackListOf(f) == b then 1 else 0 {
      assert Count(s.back, b, f) == if f in Settled(tables) && f.ftype.Reference? && BackListOf(f) == b then 1 else 0;
    }
    forall t, f ensures Count(r.pending, t, f)
        == if f in Waiting(tables) && f.ftype.Reference? && f.ftype.target == t then 1 else 0 {
      assert Count(s.pending, t, f)
             == if f in Waiting(tables) && f.ftype.Reference? && f.ftype.target == t then 1 else 0;
    }
  }

  lemma NewFieldsUnknown(tables: map<string, TableDecl>, d: TableDecl, i: nat)
    requires d.name !in tables && WellNamed(d) && i < |d.fields|
    requires forall t | t in tables :: tables[t].name == t && WellNamed(tables[t])
    ensures d.fields[i] !in FieldsOf(tables)
  {
  }

  lemma RegisterStep(s: Catalog, f: Field, settled: set<Field>, waiting: set<Field>)
    requires Linked(s, settled, waiting) && f !in settled && f !in waiting
    ensures var bad := f.ftype.Reference? && f.ftype.target in s.tables && !Resolves(s.tables[f.ftype.target], f);
            && (Register(s, f).None? <==> bad)
            && (!bad ==>
                 var waits := f.ftype.Reference? && f.ftype.target !in s.tables;
                 var r := Register(s, f).value;
                 Linked(r, if waits then settled else settled + {f}, if waits then waiting + {f} else waiting)
                 && r.tables == s.tables
                 && r.back.Keys == s.back.Keys + if f.ftype.Reference? && !waits then {BackListOf(f)} else {})
  {
    match f.ftype
    case Plain =>
      PlainKept(s, f, settled, waiting);
    case Reference(t, _, _) =>
      if t !in s.tables {
        WaitKept(s, f, settled, waiting, Register(s, f).value);
      } else if Resolves(s.tables[t], f) {
        LinkKept(s, f, settled, waiting, Register(s, f).value);
      }
  }

  lemma PlainKept(s: Catalog, f: Field, settled: set<Field>, waiting: set<Field>)
    requires Linked(s, settled, waiting) && f.ftype.Plain?
    ensures Linked(s.(referent := s.referent[f := Nothing]), settled + {f}, waiting)
  {
    var r := s.(referent := s.referent[f := Nothing]);
    forall b, g ensures Count(r.back, b, g)
        == if g in settled + {f} && g.ftype.Reference? && BackListOf(g) == b then 1 else 0 {
      assert Count(s.back, b, g) == if g in settled && g.ftype.Reference? && BackListOf(g) == b then 1 else 0;
    }
    forall t, g ensures Count(r.pending, t, g)
        == if g in waiting && g.ftype.Reference? && g.ftype.target == t then 1 else 0 {
      assert Count(s.pending, t, g) == if g in waiting && g.ftype.Reference? && g.ftype.target == t then 1 else 0;
    }
  }

  ghost predicate BackListsOf(s: Catalog, tables: map<string, TableDecl>) {
    && (forall t, l | t in tables :: BackList(t, l) in s.back)
    && (forall b | b in s.back :: b.table in tables)
  }

  /** Where things stand after `n` turns of the first loop. */
  ghost predicate Registered(r: Catalog, d: TableDecl, tables: map<string, TableDecl>, n: nat)
    requires n <= |d.fields|
  {
    && r.tables == tables && BackListsOf(r, tables[d.name := d])
    && Linked(r, Settled(tables) + OwnSettled(d, tables, n), Waiting(tables) + OwnWaiting(d, tables, n))
  }

  lemma OwnGrows(d: TableDecl, tables: map<string, TableDecl>, n: nat)
    requires n < |d.fields|
    ensures var f := d.fields[n];
            var waits := f.ftype.Reference? && f.ftype.target !in tables;
            && Settled(tables) + OwnSettled(d, tables, n + 1)
               == (if waits then Settled(tables) + OwnSettled(d, tables, n)
                   else Settled(tables) + OwnSettled(d, tables, n) + {f})
            && Waiting(tables) + OwnWaiting(d, tables, n + 1)
               == (if waits then Waiting(tables) + OwnWaiting(d, tables, n) + {f}
                   else Waiting(tables) + OwnWaiting(d, tables, n))
  {
  }

  lemma RegisteredMore(r: Catalog, d: TableDecl, tables: map<string, TableDecl>, n: nat, s: Option<Catalog>)
    requires d.name !in tables && WellNamed(d) && n < |d.fields| && Registered(r, d, tables, n)
    requires forall t | t in tables :: tables[t].name == t && WellNamed(tables[t])
    requires s == Register(r, d.fields[n])
    ensures s.Some? ==> Registered(s.value, d, tables, n + 1)
    ensures s.Some? && OwnResolve(d, tables, n) <==> OwnResolve(d, tables, n + 1)
  {
    NewFieldsUnknown(tables, d, n);
    RegisterStep(r, d.fields[n], Settled(tables) + OwnSettled(d, tables, n),
        Waiting(tables) + OwnWaiting(d, tables, n));
    OwnGrows(d, tables, n);
  }

  lemma {:induction false} RegisterAllLinks(s: Catalog, d: TableDecl, tables: map<string, TableDecl>, n: nat)
    requires Describes(s, tables) && d.name !in tables && WellNamed(d) && n <= |d.fields|
    ensures RegisterAll(ClearLists(s, d), d.fields, n).Some? <==> OwnResolve(d, tables, n)
    ensures RegisterAll(ClearLists(s, d), d.fields, n).Some? ==>
              Registered(RegisterAll(ClearLists(s, d), d.fields, n).value, d, tables, n)
    decreases n
  {
    if n == 0 {
      ClearedLinked(s, d, tables);
      assert Settled(tables) + OwnSettled(d, tables, 0) == Settled(tables);
      assert Waiting(tables) + OwnWaiting(d, tables, 0) == Waiting(tables);
    } else {
      var m := n - 1;
      RegisterAllLinks(s, d, tables, m);
      if OwnResolve(d, tables, m) {
        RegisteredMore(RegisterAll(ClearLists(s, d), d.fields, m).value, d, tables, m,
                       RegisterAll(ClearLists(s, d), d.fields, n));
      }
    }
  }

  lemma AdoptStep(s: Catalog, d: TableDecl, f: Field, settled: set<Field>, waiting: set<Field>)
    requires Linked(s, settled, waiting) && f !in settled && f.ftype.Reference? && f.ftype.target == d.name
    ensures Adopt(s, d, f).Some? <==> Resolves(d, f)
    ensures Adopt(s, d, f).Some? ==>
              var r := Adopt(s, d, f).value;
              Linked(r, settled + {f}, waiting) && r.tables == s.tables && r.back.Keys == s.back.Keys + {BackListOf(f)}
  {
    if Resolves(d, f) {
      LinkKept(s, f, settled, waiting, Adopt(s, d, f).value);
    }
  }

  ghost function Elements(fields: seq<Field>, n: nat): set<Field>
    requires n <= |fields|
  {
    set i | 0 <= i < n :: fields[i]
  }

  /** Where things stand after `n` turns of the second loop. */
  ghost predicate Adopted(r: Catalog, was: Catalog, fields: seq<Field>, n: nat, tables: map<string, TableDecl>,
                          settled: set<Field>, waiting: set<Field>)
    requires n <= |fields|
  {
    r.tables == was.tables && BackListsOf(r, tables) && Linked(r, settled + Elements(fields, n), waiting)
  }

  ghost predicate FirstResolve(d: TableDecl, fields: seq<Field>, n: nat)
    requires n <= |fields|
  {
    forall i | 0 <= i < n && fields[i].ftype.Reference? :: Resolves(d, fields[i])
  }

  lemma AdoptMore(s: Catalog, was: Catalog, d: TableDecl, fields: seq<Field>, m: nat, tables: map<string, TableDecl>,
                  settled: set<Field>, waiting: set<Field>, r: Option<Catalog>)
    requires m < |fields| && Adopted(s, was, fields, m, tables, settled, waiting)
    requires d.name in tables && fields[m].ftype.Reference? && fields[m].ftype.target == d.name
    requires fields[m] !in settled && forall i | 0 <= i < m :: fields[i] != fields[m]
    requires r == Adopt(s, d, fields[m])
    ensures r.Some? && FirstResolve(d, fields, m) <==> FirstResolve(d, fields, m + 1)
    ensures r.Some? ==> Adopted(r.value, was, fields, m + 1, tables, settled, waiting)
  {
    AdoptStep(s, d, fields[m], settled + Elements(fields, m), waiting);
    assert settled + Elements(fields, m + 1) == settled + Elements(fields, m) + {fields[m]};
  }

  lemma {:induction false} AdoptAllLinks(s: Catalog, d: TableDecl, fields: seq<Field>, n: nat,
                                         tables: map<string, TableDecl>,
                                         settled: set<Field>, waiting: set<Field>)
    requires n <= |fields| && Linked(s, settled, waiting) && BackListsOf(s, tables)
    requires d.name in tables
    requires forall i | 0 <= i < |fields| ::
               fields[i] !in settled && fields[i].ftype.Reference? && fields[i].ftype.target == d.name
    requires forall i, j | 0 <= i < j < |fields| :: fields[i] != fields[j]
    ensures AdoptAll(s, d, fields, n).Some? <==> FirstResolve(d, fields, n)
    ensures AdoptAll(s, d, fields, n).Some? ==>
              Adopted(AdoptAll(s, d, fields, n).value, s, fields, n, tables, settled, waiting)
    decreases n
  {
    if n == 0 {
      assert settled + Elements(fields, 0) == settled;
    } else {
      var m := n - 1;
      AdoptAllLinks(s, d, fields, m, tables, settled, waiting);
      if AdoptAll(s, d, fields, m).Some? {
        AdoptMore(AdoptAll(s, d, fields, m).value, s, d, fields, m, tables, settled, waiting,
                  AdoptAll(s, d, fields, n));
      }
    }
  }

  /** The fields popped from the pending list: those that wait for the new table, once each. */
  lemma Popped(r: Catalog, name: string, settled: set<Field>, waiting: set<Field>)
    requires Linked(r, settled, waiting)
    ensures var referees := Get(r.pending, name);
            && (forall f :: f in referees <==> f in waiting && f.ftype.Reference? && f.ftype.target == name)
            && (forall i, j | 0 <= i < j < |referees| :: referees[i] != referees[j])
    ensures Linked(r.(pending := r.pending - {name}), settled,
                   set f | f in waiting && !(f.ftype.Reference? && f.ftype.target == name))
  {
    var referees := Get(r.pending, name);
    forall f ensures f in referees <==> f in waiting && f.ftype.Reference? && f.ftype.target == name {
      assert Count(r.pending, name, f) == if f in waiting && f.ftype.Reference? && f.ftype.target == name then 1 else 0;
      assert f in referees <==> f in multiset(referees);
    }
    forall i, j | 0 <= i < j < |referees| ensures referees[i] != referees[j] {
      TwiceCounted(referees, i, j);
      assert Count(r.pending, name, referees[i]) <= 1;
    }
    var s := r.(pending := r.pending - {name});
    var rest := set f | f in waiting && !(f.ftype.Reference? && f.ftype.target == name);
    forall t, g ensures Count(s.pending, t, g)
        == if g in rest && g.ftype.Reference? && g.ftype.target == t then 1 else 0 {
      assert Count(r.pending, t, g) == if g in waiting && g.ftype.Reference? && g.ftype.target == t then 1 else 0;
    }
    forall b, g ensures Count(s.back, b, g)
        == if g in settled && g.ftype.Reference? && BackListOf(g) == b then 1 else 0 {
      assert Count(r.back, b, g) == if g in settled && g.ftype.Reference? && BackListOf(g) == b then 1 else 0;
    }
  }

  lemma TwiceCounted(s: seq<Field>, i: nat, j: nat)
    requires i < j < |s|
    ensures s[i] == s[j] ==> multiset(s)[s[i]] >= 2
  {
    assert s == s[..j] + [s[j]] + s[j + 1..];
    assert s[..j][i] == s[i];
    assert multiset(s) == multiset(s[..j]) + multiset{s[j]} + multiset(s[j + 1..]);
  }

  /** The sets of the enlarged definitions, in terms of the loops. */
  lemma SetsOfAll(d: TableDecl, tables: map<string, TableDecl>, referees: seq<Field>)
    requires d.name !in tables && WellNamed(d) && forall t | t in tables :: tables[t].name == t && WellNamed(tables[t])
    requires forall f :: f in referees <==>
               f in StillWaiting(d, tables) && f.ftype.Reference? && f.ftype.target == d.name
    ensures var all := tables[d.name := d];
            && Settled(all) == Settled(tables) + OwnSettled(d, tables, |d.fields|) + Elements(referees, |referees|)
            && Waiting(all) == set f | f in StillWaiting(d, tables) && !(f.ftype.Reference? && f.ftype.target == d.name)
  {
    var all := tables[d.name := d];
    FieldsOfAll(d, tables);
    forall f ensures f in FieldsOf(all) <==> f in FieldsOf(tables) || f in d.fields {
    }
    forall f ensures f in Elements(referees, |referees|) <==> f in referees {
    }
    forall f | f in d.fields ensures exists i :: 0 <= i < |d.fields| && d.fields[i] == f {
    }
  }

  lemma FieldsOfAll(d: TableDecl, tables: map<string, TableDecl>)
    requires d.name !in tables
    ensures forall f :: f in FieldsOf(tables[d.name := d]) <==> f in FieldsOf(tables) || f in d.fields
  {
    var all := tables[d.name := d];
    forall f ensures f in FieldsOf(all) <==> f in FieldsOf(tables) || f in d.fields {
      if f in FieldsOf(tables) {
        var t :| t in tables && f in tables[t].fields;
        assert t in all && all[t] == tables[t];
      }
      if f in d.fields {
        assert d.name in all && f in all[d.name].fields;
      }
    }
  }

  lemma OwnUnresolved(d: TableDecl, tables: map<string, TableDecl>)
    requires d.name !in tables && !OwnResolve(d, tables, |d.fields|)
    ensures !AllResolve(tables[d.name := d])
  {
    var all := tables[d.name := d];
    var i :| 0 <= i < |d.fields| && d.fields[i].ftype.Reference? && d.fields[i].ftype.target in tables
             && !Resolves(tables[d.fields[i].ftype.target], d.fields[i]);
    FieldsOfAll(d, tables);
    assert d.fields[i] in d.fields;
    assert d.fields[i] in FieldsOf(all);
  }

  /** Waiting fields of the old definitions and of the new one, its self references included. */
  ghost function StillWaiting(d: TableDecl, tables: map<string, TableDecl>): set<Field> {
    Waiting(tables) + OwnWaiting(d, tables, |d.fields|)
  }

  /** The second loop takes up exactly the fields that wait for the table, its self references
      included, and links each of them. */
  lemma AdoptionLinks(r: Catalog, d: TableDecl, tables: map<string, TableDecl>)
    requires d.name !in tables && WellNamed(d)
    requires forall t | t in tables :: tables[t].name == t && WellNamed(tables[t])
    requires Registered(r, d, tables, |d.fields|)
    ensures var referees := Get(r.pending, d.name);
            var done := AdoptAll(r.(pending := r.pending - {d.name}), d, referees, |referees|);
            && (forall f :: f in referees <==>
                  f in StillWaiting(d, tables) && f.ftype.Reference? && f.ftype.target == d.name)
            && (done.Some? <==> forall i | 0 <= i < |referees| :: Resolves(d, referees[i]))
            && (done.Some? ==>
                  && done.value.tables == tables && BackListsOf(done.value, tables[d.name := d])
                  && Linked(done.value,
                            Settled(tables) + OwnSettled(d, tables, |d.fields|) + Elements(referees, |referees|),
                            set f | f in StillWaiting(d, tables) && !(f.ftype.Reference? && f.ftype.target == d.name)))
  {
    var settled, waiting := Settled(tables) + OwnSettled(d, tables, |d.fields|), StillWaiting(d, tables);
    var referees := Get(r.pending, d.name);
    Popped(r, d.name, settled, waiting);
    WaitingNotSettled(d, tables, referees);
    AdoptAllLinks(r.(pending := r.pending - {d.name}), d, referees, |referees|, tables[d.name := d], settled,
                  set f | f in waiting && !(f.ftype.Reference? && f.ftype.target == d.name));
  }

  lemma AdoptionFinishes(r: Catalog, d: TableDecl, tables: map<string, TableDecl>)
    requires d.name !in tables && WellNamed(d) && AllResolve(tables) && OwnResolve(d, tables, |d.fields|)
    requires forall t | t in tables :: tables[t].name == t && WellNamed(tables[t])
    requires Registered(r, d, tables, |d.fields|)
    ensures var referees := Get(r.pending, d.name);
            var done := AdoptAll(r.(pending := r.pending - {d.name}), d, referees, |referees|);
            && (done.Some? <==> AllResolve(tables[d.name := d]))
            && (done.Some? ==> done.value.tables == tables
                               && Describes(done.value.(tables := tables[d.name := d]), tables[d.name := d]))
  {
    AdoptionLinks(r, d, tables);
    var referees := Get(r.pending, d.name);
    SetsOfAll(d, tables, referees);
    ResolveAll(d, tables, referees);
    var done := AdoptAll(r.(pending := r.pending - {d.name}), d, referees, |referees|);
    if done.Some? {
      NameAdded(done.value, d, tables);
    }
  }

  lemma NameAdded(r: Catalog, d: TableDecl, tables: map<string, TableDecl>)
    requires r.tables == tables && BackListsOf(r, tables[d.name := d]) && WellNamed(d)
    requires forall t | t in tables :: tables[t].name == t && WellNamed(tables[t])
    requires Linked(r, Settled(tables[d.name := d]), Waiting(tables[d.name := d]))
    ensures Describes(r.(tables := tables[d.name := d]), tables[d.name := d])
  {
  }

  lemma LinkDescribes(s: Catalog, d: TableDecl, tables: map<string, TableDecl>)
    requires Describes(s, tables) && AllResolve(tables) && d.name !in tables && WellNamed(d)
    ensures Link(s, d).Some? <==> AllResolve(tables[d.name := d])
    ensures Link(s, d).Some? ==>
              Link(s, d).value.tables == tables
              && Describes(Link(s, d).value.(tables := tables[d.name := d]), tables[d.name := d])
  {
    RegisterAllLinks(s, d, tables, |d.fields|);
    if OwnResolve(d, tables, |d.fields|) {
      AdoptionFinishes(RegisterAll(ClearLists(s, d), d.fields, |d.fields|).value, d, tables);
    } else {
      OwnUnresolved(d, tables);
    }
  }

  /** One definition: accepted exactly when every reference between the tables then defined resolves,
      and then the catalog describes the enlarged set. */
  lemma DefineKeepsDescription(s: Catalog, d: TableDecl, tables: map<string, TableDecl>)
    requires Describes(s, tables) && AllResolve(tables) && d.name !in tables && WellNamed(d)
    ensures Define(s, d).Some? <==> AllResolve(tables[d.name := d])
    ensures Define(s, d).Some? ==> Describes(Define(s, d).value, tables[d.name := d])
  {
    LinkDescribes(s, d, tables);
  }

  lemma WaitingNotSettled(d: TableDecl, tables: map<string, TableDecl>, referees: seq<Field>)
    requires d.name !in tables && WellNamed(d) && forall t | t in tables :: tables[t].name == t && WellNamed(tables[t])
    requires forall f :: f in referees <==>
               f in StillWaiting(d, tables) && f.ftype.Reference? && f.ftype.target == d.name
    ensures forall i | 0 <= i < |referees| ::
              referees[i].ftype.Reference? && referees[i].ftype.target == d.name
              && referees[i] !in Settled(tables) + OwnSettled(d, tables, |d.fields|)
  {
    forall i | 0 <= i < |referees|
      ensures referees[i].ftype.Reference? && referees[i].ftype.target == d.name
              && referees[i] !in Settled(tables) + OwnSettled(d, tables, |d.fields|)
    {
      assert referees[i] in referees;
    }
  }

  /** What the two loops check between them is everything. */
  lemma ResolveAll(d: TableDecl, tables: map<string, TableDecl>, referees: seq<Field>)
    requires d.name !in tables && WellNamed(d) && AllResolve(tables) && OwnResolve(d, tables, |d.fields|)
    requires forall t | t in tables :: tables[t].name == t && WellNamed(tables[t])
    requires forall f :: f in referees <==>
               f in StillWaiting(d, tables) && f.ftype.Reference? && f.ftype.target == d.name
    ensures AllResolve(tables[d.name := d]) <==> forall i | 0 <= i < |referees| :: Resolves(d, referees[i])
  {
    var all := tables[d.name := d];
    FieldsOfAll(d, tables);
    WaitingNotSettled(d, tables, referees);
    if forall i | 0 <= i < |referees| :: Resolves(d, referees[i]) {
      forall f | f in FieldsOf(all) && f.ftype.Reference? && f.ftype.target in all
        ensures Resolves(all[f.ftype.target], f)
      {
        if f.ftype.target == d.name {
          assert f in StillWaiting(d, tables) by {
            if f in d.fields {
              var i :| 0 <= i < |d.fields| && d.fields[i] == f;
            }
          }
          assert f in referees;
        } else if f in d.fields {
          var i :| 0 <= i < |d.fields| && d.fields[i] == f;
        }
      }
    } else {
      var i :| 0 <= i < |referees| && !Resolves(d, referees[i]);
      assert referees[i] in referees;
      assert referees[i] in FieldsOf(all);
    }
  }

  // ----- Whole sequences of definitions

  function DefineAll(decls: seq<TableDecl>): Option<Catalog> {
    if decls == [] then Some(EMPTY)
    else
      match DefineAll(decls[..|decls| - 1])
      case None => None
      case Some(s) => Define(s, decls[|decls| - 1])
  }

  ghost function TablesOf(decls: seq<TableDecl>): map<string, TableDecl> {
    if decls == [] then map[]
    else TablesOf(decls[..|decls| - 1])[decls[|decls| - 1].name := decls[|decls| - 1]]
  }

  ghost predicate DistinctNames(decls: seq<TableDecl>) {
    forall i, j | 0 <= i < j < |decls| :: decls[i].name != decls[j].name
  }

  lemma {:induction false} TablesOfNames(decls: seq<TableDecl>, name: string)
    ensures name in TablesOf(decls) ==> exists i ::
              0 <= i < |decls| && decls[i].name == name && TablesOf(decls)[name] == decls[i]
    decreases |decls|
  {
    if decls != [] {
      TablesOfNames(decls[..|decls| - 1], name);
    }
  }

  lemma FewerResolve(tables: map<string, TableDecl>, d: TableDecl)
    requires d.name !in tables && AllResolve(tables[d.name := d])
    ensures AllResolve(tables)
  {
    FieldsOfAll(d, tables);
  }

  /** In any order: the definitions all succeed exactly when every reference between them resolves,
      and the catalog is the one their set describes. */
  lemma {:induction false} DefineAllDescribes(decls: seq<TableDecl>)
    requires DistinctNames(decls) && forall i | 0 <= i < |decls| :: WellNamed(decls[i])
    ensures DefineAll(decls).Some? <==> AllResolve(TablesOf(decls))
    ensures DefineAll(decls).Some? ==> Describes(DefineAll(decls).value, TablesOf(decls))
    decreases |decls|
  {
    if decls != [] {
      var n := |decls| - 1;
      var d := decls[n];
      var before := decls[..n];
      DefineAllDescribes(before);
      TablesOfNames(before, d.name);
      if DefineAll(before).Some? {
        DefineKeepsDescription(DefineAll(before).value, d, TablesOf(before));
      } else if AllResolve(TablesOf(decls)) {
        FewerResolve(TablesOf(before), d);
      }
    } else {
      EmptyDescribes();
    }
  }

  /** Over every sequence of definitions: accepted exactly when the references between the tables are sound,
      and then the catalog is right, list by list. */
  lemma DefineAllRegisters(decls: seq<TableDecl>)
    requires DistinctNames(decls) && forall i | 0 <= i < |decls| :: WellNamed(decls[i])
    ensures DefineAll(decls).Some? <==> Sound(TablesOf(decls))
    ensures DefineAll(decls).Some? ==> Registry(DefineAll(decls).value, TablesOf(decls))
  {
    DefineAllDescribes(decls);
    TablesNamed(decls);
    AllResolveIsSound(TablesOf(decls));
    if DefineAll(decls).Some? {
      DescribesIsRegistry(DefineAll(decls).value, TablesOf(decls));
    }
  }

  lemma {:induction false} TablesNamed(decls: seq<TableDecl>)
    requires forall i | 0 <= i < |decls| :: WellNamed(decls[i])
    ensures forall t | t in TablesOf(decls) :: TablesOf(decls)[t].name == t && WellNamed(TablesOf(decls)[t])
    decreases |decls|
  {
    if decls != [] {
      TablesNamed(decls[..|decls| - 1]);
    }
  }

  lemma EmptyDescribes()
    ensures Describes(EMPTY, map[])
  {
  }

  /** Back-reference lists and referents do not depend on the order of definition, up to the order
      inside each list; nor does whether a definition raises. */
  lemma OrderDoesNotMatter(one: seq<TableDecl>, two: seq<TableDecl>)
    requires DistinctNames(one) && DistinctNames(two) && TablesOf(one) == TablesOf(two)
    requires (forall i | 0 <= i < |one| :: WellNamed(one[i])) && forall i | 0 <= i < |two| :: WellNamed(two[i])
    ensures DefineAll(one).Some? <==> DefineAll(two).Some?
    ensures DefineAll(one).Some? ==>
              var s, t := DefineAll(one).value, DefineAll(two).value;
              && s.tables == t.tables && s.referent == t.referent
              && (forall b :: multiset(Get(s.back, b)) == multiset(Get(t.back, b)))
              && (forall n :: multiset(Get(s.pending, n)) == multiset(Get(t.pending, n)))
  {
    DefineAllDescribes(one);
    DefineAllDescribes(two);
    if DefineAll(one).Some? {
      SameDescription(DefineAll(one).value, DefineAll(two).value, TablesOf(one));
    }
  }

  lemma SameDescription(s: Catalog, t: Catalog, tables: map<string, TableDecl>)
    requires Describes(s, tables) && Describes(t, tables)
    ensures s.tables == t.tables && s.referent == t.referent
    ensures forall b :: multiset(Get(s.back, b)) == multiset(Get(t.back, b))
    ensures forall n :: multiset(Get(s.pending, n)) == multiset(Get(t.pending, n))
  {
    forall b ensures multiset(Get(s.back, b)) == multiset(Get(t.back, b)) {
      forall f: Field ensures multiset(Get(s.back, b))[f] == multiset(Get(t.back, b))[f] {
        assert Count(s.back, b, f) == Count(t.back, b, f);
      }
    }
    forall n ensures multiset(Get(s.pending, n)) == multiset(Get(t.pending, n)) {
      forall f: Field ensures multiset(Get(s.pending, n))[f] == multiset(Get(t.pending, n))[f] {
        assert Count(s.pending, n, f) == Count(t.pending, n, f);
      }
    }
  }

  lemma PendingKeys(s: Catalog, settled: set<Field>, waiting: set<Field>, n: string)
    requires Linked(s, settled, waiting)
    ensures n in s.pending <==> exists f :: f in waiting && f.ftype.Reference? && f.ftype.target == n
  {
    if n in s.pending {
      var f := s.pending[n][0];
      assert Count(s.pending, n, f) == if f in waiting && f.ftype.Reference? && f.ftype.target == n then 1 else 0;
      assert f in multiset(s.pending[n]);
    }
    if f :| f in waiting && f.ftype.Reference? && f.ftype.target == n {
      assert Count(s.pending, n, f) == 1;
    }
  }

  /** Between definitions no defined table is a pending key, and a key is there only for a waiting field. */
  lemma PendingKeysUndefined(s: Catalog, tables: map<string, TableDecl>, n: string)
    requires Describes(s, tables)
    ensures n in s.pending <==>
              exists f :: f in FieldsOf(tables) && f.ftype.Reference? && f.ftype.target == n && n !in tables
  {
    PendingKeys(s, Settled(tables), Waiting(tables), n);
    if f :| f in FieldsOf(tables) && f.ftype.Reference? && f.ftype.target == n && n !in tables {
      assert f in Waiting(tables);
    }
  }

  /** Nor is one inside the first loop, where the table being defined counts as undefined and its
      self references wait like any other. */
  lemma PendingInsideDefinition(r: Catalog, d: TableDecl, tables: map<string, TableDecl>, n: nat, key: string)
    requires n <= |d.fields| && Registered(r, d, tables, n)
    ensures key in r.pending <==>
            exists f :: (f in FieldsOf(tables) || f in d.fields[..n]) && f.ftype.Reference? && f.ftype.target == key
                && key !in tables
  {
    PendingKeys(r, Settled(tables) + OwnSettled(d, tables, n), Waiting(tables) + OwnWaiting(d, tables, n), key);
    forall f | f in d.fields[..n] ensures exists i :: 0 <= i < n && d.fields[i] == f {
    }
    if f :|
      && (f in FieldsOf(tables) || f in d.fields[..n])
      && f.ftype.Reference? && f.ftype.target == key && key !in tables
    {
      assert f in Waiting(tables) + OwnWaiting(d, tables, n);
    }
    if f :| f in Waiting(tables) + OwnWaiting(d, tables, n) && f.ftype.Reference? && f.ftype.target == key {
      assert f in FieldsOf(tables) || f in d.fields[..n];
    }
  }

  // ----- `_references`, which no other definition completes

  /** The first `n` fields' references whose targets are among `known`. */
  function LinkedAtOnce(fields: seq<Field>, n: nat, known: set<string>): seq<Field>
    requires n <= |fields|
  {
    if n == 0 then []
    else
      var f := fields[n - 1];
      LinkedAtOnce(fields, n - 1, known) + if f.ftype.Reference? && f.ftype.target in known then [f] else []
  }

  /** They are picked in their order; `at` is where they stood. */
  lemma {:induction false} LinkedPlaces(fields: seq<Field>, n: nat, known: set<string>) returns (at: seq<nat>)
    requires n <= |fields|
    ensures |at| == |LinkedAtOnce(fields, n, known)|
    ensures forall i | 0 <= i < |at| :: at[i] < n && LinkedAtOnce(fields, n, known)[i] == fields[at[i]]
    ensures forall i, j | 0 <= i < j < |at| :: at[i] < at[j]
    ensures forall k | 0 <= k < n :: k in at <==> fields[k].ftype.Reference? && fields[k].ftype.target in known
  {
    if n == 0 {
      at := [];
    } else {
      at := LinkedPlaces(fields, n - 1, known);
      assert forall k | k in at :: k < n - 1;
      if fields[n - 1].ftype.Reference? && fields[n - 1].ftype.target in known {
        at := at + [n - 1];
      }
    }
  }

  lemma {:induction false} RegisterAllReferences(s: Catalog, d: TableDecl, n: nat)
    requires WellNamed(d) && n <= |d.fields| && Get(s.references, d.name) == []
    requires RegisterAll(s, d.fields, n).Some?
    ensures var r := RegisterAll(s, d.fields, n).value;
            && r.tables == s.tables
            && forall t :: Get(r.references, t)
                           == if t == d.name then LinkedAtOnce(d.fields, n, s.tables.Keys) else Get(s.references, t)
  {
    if n > 0 {
      RegisterAllReferences(s, d, n - 1);
      assert d.fields[n - 1].table == d.name;
      assert LinkedAtOnce(d.fields, n - 1, s.tables.Keys) + [] == LinkedAtOnce(d.fields, n - 1, s.tables.Keys);
    }
  }

  lemma {:induction false} AdoptAllReferences(s: Catalog, d: TableDecl, fields: seq<Field>, n: nat)
    requires n <= |fields| && AdoptAll(s, d, fields, n).Some?
    ensures AdoptAll(s, d, fields, n).value.references == s.references
    ensures AdoptAll(s, d, fields, n).value.tables == s.tables
  {
    if n > 0 {
      AdoptAllReferences(s, d, fields, n - 1);
    }
  }

  lemma DefineReferences(s: Catalog, d: TableDecl)
    requires WellNamed(d) && Define(s, d).Some?
    ensures var r := Define(s, d).value;
            && r.tables == s.tables[d.name := d]
            && forall t :: Get(r.references, t)
                           == if t == d.name then LinkedAtOnce(d.fields, |d.fields|, s.tables.Keys)
                              else Get(s.references, t)
  {
    RegisterAllReferences(ClearLists(s, d), d, |d.fields|);
    var r := RegisterAll(ClearLists(s, d), d.fields, |d.fields|).value;
    var referees := Get(r.pending, d.name);
    AdoptAllReferences(r.(pending := r.pending - {d.name}), d, referees, |referees|);
  }

  /** A table's `_references` are its references to the tables defined before it, in field order; a
      self reference is not among them. */
  lemma {:induction false} ReferencesListed(decls: seq<TableDecl>, n: nat, i: nat)
    requires DistinctNames(decls) && forall j | 0 <= j < |decls| :: WellNamed(decls[j])
    requires i < n <= |decls| && DefineAll(decls[..n]).Some?
    ensures Get(DefineAll(decls[..n]).value.references, decls[i].name)
            == LinkedAtOnce(decls[i].fields, |decls[i].fields|, TablesOf(decls[..i]).Keys)
    decreases n
  {
    var m := n - 1;
    LastDefinition(decls, n);
    var s := DefineAll(decls[..m]).value;
    DefineReferences(s, decls[m]);
    if i < m {
      assert decls[i].name != decls[m].name;
      ReferencesListed(decls, m, i);
    } else {
      assert decls[i] == decls[m];
      DefinedTables(decls[..m]);
    }
  }

  lemma LastDefinition(decls: seq<TableDecl>, n: nat)
    requires 0 < n <= |decls| && DefineAll(decls[..n]).Some?
    ensures DefineAll(decls[..n - 1]).Some?
    ensures DefineAll(decls[..n]) == Define(DefineAll(decls[..n - 1]).value, decls[n - 1])
  {
    assert decls[..n][..n - 1] == decls[..n - 1] && decls[..n][n - 1] == decls[n - 1];
  }

  lemma {:induction false} DefinedTables(decls: seq<TableDecl>)
    requires DefineAll(decls).Some? && forall j | 0 <= j < |decls| :: WellNamed(decls[j])
    ensures DefineAll(decls).value.tables == TablesOf(decls)
    decreases |decls|
  {
    if decls != [] {
      var m := |decls| - 1;
      DefinedTables(decls[..m]);
      DefineReferences(DefineAll(decls[..m]).value, decls[m]);
    }
  }

  lemma {:induction false} LinkedAtOnceHas(fields: seq<Field>, n: nat, known: set<string>, f: Field)
    requires n <= |fields|
    ensures f in LinkedAtOnce(fields, n, known) <==> f in fields[..n] && f.ftype.Reference? && f.ftype.target in known
  {
    if n > 0 {
      LinkedAtOnceHas(fields, n - 1, known, f);
      assert fields[..n] == fields[..n - 1] + [fields[n - 1]];
    }
  }

  lemma {:induction false} LinkedAtOnceSame(fields: seq<Field>, n: nat, a: set<string>, b: set<string>)
    requires n <= |fields|
    requires forall j | 0 <= j < n && fields[j].ftype.Reference? ::
               fields[j].ftype.target in a <==> fields[j].ftype.target in b
    ensures LinkedAtOnce(fields, n, a) == LinkedAtOnce(fields, n, b)
  {
    if n > 0 {
      LinkedAtOnceSame(fields, n - 1, a, b);
    }
  }

  lemma LinkedAtOnceSameIff(fields: seq<Field>, a: set<string>, b: set<string>)
    ensures LinkedAtOnce(fields, |fields|, a) == LinkedAtOnce(fields, |fields|, b)
            <==> forall j | 0 <= j < |fields| && fields[j].ftype.Reference? ::
                   fields[j].ftype.target in a <==> fields[j].ftype.target in b
  {
    if LinkedAtOnce(fields, |fields|, a) == LinkedAtOnce(fields, |fields|, b) {
      forall j | 0 <= j < |fields| && fields[j].ftype.Reference?
        ensures fields[j].ftype.target in a <==> fields[j].ftype.target in b
      {
        LinkedAtOnceHas(fields, |fields|, a, fields[j]);
        LinkedAtOnceHas(fields, |fields|, b, fields[j]);
        assert fields[..|fields|] == fields;
      }
    }
    if forall j | 0 <= j < |fields| && fields[j].ftype.Reference? ::
         fields[j].ftype.target in a <==> fields[j].ftype.target in b {
      LinkedAtOnceSame(fields, |fields|, a, b);
    }
  }

  /** Two orders give a table the same `_references` exactly when each of its targets precedes it in
      both orders or in neither. */
  lemma ReferencesAgreeIff(one: seq<TableDecl>, two: seq<TableDecl>, i: nat, k: nat)
    requires DistinctNames(one) && DistinctNames(two) && i < |one| && k < |two| && one[i] == two[k]
    requires (forall j | 0 <= j < |one| :: WellNamed(one[j])) && forall j | 0 <= j < |two| :: WellNamed(two[j])
    requires DefineAll(one).Some? && DefineAll(two).Some?
    ensures Get(DefineAll(one).value.references, one[i].name) == Get(DefineAll(two).value.references, one[i].name)
            <==> forall j | 0 <= j < |one[i].fields| && one[i].fields[j].ftype.Reference? ::
                   Precedes(one, i, one[i].fields[j].ftype.target) <==> Precedes(two, k, one[i].fields[j].ftype.target)
  {
    assert one[..|one|] == one && two[..|two|] == two;
    ReferencesListed(one, |one|, i);
    ReferencesListed(two, |two|, k);
    LinkedAtOnceSameIff(one[i].fields, TablesOf(one[..i]).Keys, TablesOf(two[..k]).Keys);
    forall name ensures Precedes(one, i, name) <==> name in TablesOf(one[..i]) {
      PrecedesIff(one, i, name);
    }
    forall name ensures Precedes(two, k, name) <==> name in TablesOf(two[..k]) {
      PrecedesIff(two, k, name);
    }
  }

  /** A table of that name is defined before definition `i`. */
  ghost predicate Precedes(decls: seq<TableDecl>, i: nat, name: string)
    requires i <= |decls|
  {
    exists j :: 0 <= j < i && decls[j].name == name
  }

  lemma {:induction false} PrecedesIff(decls: seq<TableDecl>, i: nat, name: string)
    requires i <= |decls|
    ensures Precedes(decls, i, name) <==> name in TablesOf(decls[..i])
  {
    if i > 0 {
      PrecedesIff(decls, i - 1, name);
      assert decls[..i][..i - 1] == decls[..i - 1];
      if decls[i - 1].name == name {
        assert Precedes(decls, i, name);
      }
    }
  }

  /** So it depends on the order, where all the rest does not. */
  lemma ReferencesDependOnOrder(a: TableDecl, b: TableDecl, f: Field)
    requires WellNamed(a) && WellNamed(b) && a.name != b.name
    requires f in a.fields && f.ftype.Reference? && f.ftype.target == b.name
    requires DefineAll([a, b]).Some? && DefineAll([b, a]).Some?
    ensures Get(DefineAll([a, b]).value.references, a.name) != Get(DefineAll([b, a]).value.references, a.name)
  {
    ReferencesAgreeIff([a, b], [b, a], 0, 1);
    var j :| 0 <= j < |a.fields| && a.fields[j] == f;
    assert [b, a][0].name == b.name && Precedes([b, a], 1, b.name) && !Precedes([a, b], 0, b.name);
  }
}
