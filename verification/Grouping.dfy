/** `group_by_value`: rows regrouped into nested dictionaries, filled in place one row at a time. */
module Grouping {
  import opened Options

  datatype Result<+T> = Ok(value: T) | KeyError

  type Row = map<string, string>

  /** What a nested dictionary holds, as a value. */
  datatype Tree = Leaf(rows: seq<Row>) | Single(row: Row) | Groups(below: map<string, Tree>)

  /** One slot of a dictionary: a list of rows, one row, or a further dictionary. */
  datatype Slot = List(rows: seq<Row>) | One(row: Row) | Dict(group: Group)

  class Group {
    var slots: map<string, Slot>
    ghost var view: map<string, Tree>
    ghost var Repr: set<Group>

    /** A dictionary `depth` levels above the rows, sharing nothing between its slots. */
    ghost predicate Valid(depth: nat, oneResult: bool)
      reads this, Repr
      decreases depth
    {
      && this in Repr
      && depth > 0
      && view.Keys == slots.Keys
      && (forall k | k in slots :: SlotValid(k, depth, oneResult))
      && (forall j, k | j in slots && k in slots && j != k && slots[j].Dict? && slots[k].Dict? ::
            slots[j].group.Repr !! slots[k].group.Repr)
    }

    ghost predicate SlotValid(k: string, depth: nat, oneResult: bool)
      requires this in Repr && view.Keys == slots.Keys && k in slots && depth > 0
      reads this, Repr
      decreases depth, 0
    {
      match slots[k]
      case List(rows) => depth == 1 && !oneResult && view[k] == Leaf(rows)
      case One(row) => depth == 1 && oneResult && view[k] == Single(row)
      case Dict(g) =>
        && depth > 1
        && g in Repr
        && g.Repr <= Repr
        && this !in g.Repr
        && g.Valid(depth - 1, oneResult)
        && view[k] == Groups(g.view)
    }

    constructor ()
      ensures slots == map[] && view == map[] && Repr == {this}
    {
      slots, view, Repr := map[], map[], {this};
    }
  }

  // ----- The grouping as a function of values

  predicate HasFields(row: Row, fields: seq<string>) {
    forall i | 0 <= i < |fields| :: fields[i] in row
  }

  /** The row's own values of the grouping fields. */
  function Path(row: Row, fields: seq<string>): (path: seq<string>)
    requires HasFields(row, fields)
    ensures |path| == |fields|
  {
    seq(|fields|, i requires 0 <= i < |fields| => row[fields[i]])
  }

  function Below(view: map<string, Tree>, k: string): map<string, Tree> {
    if k in view && view[k].Groups? then view[k].below else map[]
  }

  function RowsAt(view: map<string, Tree>, k: string): seq<Row> {
    if k in view && view[k].Leaf? then view[k].rows else []
  }

  function Put(view: map<string, Tree>, path: seq<string>, row: Row, oneResult: bool): map<string, Tree>
    requires |path| > 0
    decreases |path|
  {
    view[path[0] :=
      if |path| > 1 then Groups(Put(Below(view, path[0]), path[1..], row, oneResult))
      else if oneResult then Single(row)
      else Leaf(RowsAt(view, path[0]) + [row])]
  }

  function Grouped(rows: seq<Row>, fields: seq<string>, oneResult: bool): map<string, Tree>
    requires |fields| > 0 && forall i | 0 <= i < |rows| :: HasFields(rows[i], fields)
  {
    if rows == [] then map[]
    else
      var n := |rows| - 1;
      Put(Grouped(rows[..n], fields, oneResult), Path(rows[n], fields), rows[n], oneResult)
  }

  // ----- The algorithm

  /** The objects below one slot of a dictionary. */
  ghost function Beneath(slots: map<string, Slot>, k: string): (r: set<Group>)
    reads if k in slots && slots[k].Dict? then {slots[k].group} else {}
  {
    if k in slots && slots[k].Dict? then slots[k].group.Repr else {}
  }

  /** A slot's contents as a value. */
  ghost function TreeOf(slot: Slot): Tree
    reads if slot.Dict? then {slot.group} else {}
  {
    match slot
    case List(rows) => Leaf(rows)
    case One(row) => Single(row)
    case Dict(g) => Groups(g.view)
  }

  /** Only one slot of `here` changed, and objects below it. */
  twostate predicate OnlySlotChanged(here: Group, new value: string)
    reads *
  {
    && value in here.slots
    && here.slots == old(here.slots)[value := here.slots[value]]
    && here.view == old(here.view)[value := TreeOf(here.slots[value])]
    && here.Repr == old(here.Repr) + Beneath(here.slots, value)
  }

  twostate lemma SlotChanged(here: Group, new value: string, new depth: nat, new oneResult: bool)
    requires old(here.Valid(depth, oneResult)) && OnlySlotChanged(here, value)
    requires unchanged(old(here.Repr) - {here} - old(Beneath(here.slots, value)))
    requires here.SlotValid(value, depth, oneResult)
    requires Beneath(here.slots, value) !! old(here.Repr) - old(Beneath(here.slots, value))
    ensures here.Valid(depth, oneResult)
  {
    forall k | k in here.slots && k != value
      ensures here.SlotValid(k, depth, oneResult) && Beneath(here.slots, k) == old(Beneath(here.slots, k))
      ensures Beneath(here.slots, k) !! Beneath(here.slots, value)
    {
      assert old(here.SlotValid(k, depth, oneResult));
      if here.slots[k].Dict? {
        var g := here.slots[k].group;
        assert old(g.Valid(depth - 1, oneResult)) && g in old(g.Repr);
        assert forall x | x in old(g.Repr) :: x !in old(Beneath(here.slots, value));
        assert unchanged(old(g.Repr));
      }
    }
  }

  /** The slot `Put` leaves at the row's first value. */
  lemma PutHere(view: map<string, Tree>, row: Row, fields: seq<string>, num: nat, oneResult: bool, tree: Tree)
    requires num < |fields| && HasFields(row, fields[num..]) && HasFields(row, fields[num + 1..])
    requires
      var value := row[fields[num..][0]];
      if num + 1 < |fields| then
        tree == Groups(Put(Below(view, value), Path(row, fields[num + 1..]), row, oneResult))
      else
        tree == if oneResult then Single(row) else Leaf(RowsAt(view, value) + [row])
    ensures view[row[fields[num]] := tree] == Put(view, Path(row, fields[num..]), row, oneResult)
  {
    assert fields[num + 1..] == fields[num..][1..];
    assert Path(row, fields[num..])[1..] == Path(row, fields[num + 1..]);
  }

  function Merged(slots: map<string, Slot>, value: string, struct: Slot): Slot {
    if value in slots && struct.List? && slots[value].List? then List(slots[value].rows + struct.rows) else struct
  }

  /** `groups[value]` takes the built structure: replaced, extended, or already updated in place. */
  method Store(here: Group, value: string, struct: Slot)
    requires value in here.slots && struct.List? ==> here.slots[value].List?
    requires value in here.slots && struct.Dict? ==> here.slots[value] == struct
    requires struct.Dict? ==> struct.group != here
    modifies here
    ensures here.slots == old(here.slots)[value := Merged(old(here.slots), value, struct)]
    ensures here.Repr == old(here.Repr) + Beneath(here.slots, value)
    ensures here.view == old(here.view)[value := TreeOf(here.slots[value])]
  {
    if value !in here.slots {
      here.slots := here.slots[value := struct];
    } else {
      match struct {
        case Dict(_) =>
        case List(rows) => here.slots := here.slots[value := List(here.slots[value].rows + rows)];
        case One(_) => here.slots := here.slots[value := struct];
      }
    }
    here.Repr := here.Repr + Beneath(here.slots, value);
    here.view := here.view[value := TreeOf(here.slots[value])];
  }

  method BuildFieldsStruct(row: Row, fields: seq<string>, num: nat, groups: Slot, oneResult: bool)
    returns (r: Result<Slot>)
    requires num <= |fields|
    requires num < |fields| ==> groups.Dict? && groups.group.Valid(|fields| - num, oneResult)
    modifies if num < |fields| && groups.Dict? then groups.group.Repr else {}
    ensures r.Ok? <==> HasFields(row, fields[num..])
    ensures num == |fields| ==> r == Ok(if oneResult then One(row) else List([row]))
    ensures num < |fields| ==> groups.group.Valid(|fields| - num, oneResult)
    ensures num < |fields| ==> fresh(groups.group.Repr - old(groups.group.Repr))
    ensures r.KeyError? ==> unchanged(old(groups.group.Repr))
    ensures num < |fields| && r.Ok? ==>
              && r == Ok(groups)
              && groups.group.view == Put(old(groups.group.view), Path(row, fields[num..]), row, oneResult)
    decreases |fields| - num, 2
  {
    if num > |fields| - 1 {
      return Ok(if oneResult then One(row) else List([row]));
    }
    var key := fields[num];
    assert fields[num..][0] == key && fields[num..][1..] == fields[num + 1..];
    if key !in row {
      return KeyError;
    }
    var ok := PutRow(row, fields, num, groups.group, row[key], oneResult);
    return if ok then Ok(groups) else KeyError;
  }

  /** The row goes below the slot of its value, and the slot takes what comes back. */
  method PutRow(row: Row, fields: seq<string>, num: nat, here: Group, value: string, oneResult: bool) returns (ok: bool)
    requires num < |fields| && fields[num] in row && value == row[fields[num]]
    requires here.Valid(|fields| - num, oneResult)
    modifies here.Repr
    ensures ok <==> HasFields(row, fields[num + 1..])
    ensures here.Valid(|fields| - num, oneResult) && fresh(here.Repr - old(here.Repr))
    ensures !ok ==> unchanged(old(here.Repr))
    ensures ok ==> HasFields(row, fields[num..])
                   && here.view == Put(old(here.view), Path(row, fields[num..]), row, oneResult)
    decreases |fields| - num, 1
  {
    assert fields[num..][0] == fields[num] && fields[num..][1..] == fields[num + 1..];
    assert value in here.slots ==> here.SlotValid(value, |fields| - num, oneResult);
    var struct := BuildBelow(row, fields, num, here, value, oneResult);
    if struct.KeyError? {
      return false;
    }
    Store(here, value, struct.value);
    PutHere(old(here.view), row, fields, num, oneResult, here.view[value]);
    SlotChanged(here, value, |fields| - num, oneResult);
    return true;
  }

  /** The recursive call: into a new dictionary, or into the one the slot already holds. */
  method BuildBelow(row: Row, fields: seq<string>, num: nat, here: Group, value: string, oneResult: bool)
    returns (r: Result<Slot>)
    requires num < |fields| && here.Valid(|fields| - num, oneResult)
    modifies Beneath(here.slots, value)
    ensures r.Ok? <==> HasFields(row, fields[num + 1..])
    ensures r.KeyError? ==> unchanged(old(Beneath(here.slots, value)))
    ensures r.Ok? && num + 1 == |fields| ==> r.value == if oneResult then One(row) else List([row])
    ensures r.Ok? && num + 1 < |fields| ==>
              && r.value.Dict?
              && (value in here.slots ==> r.value == here.slots[value])
              && r.value.group.Valid(|fields| - num - 1, oneResult)
              && fresh(r.value.group.Repr - old(Beneath(here.slots, value)))
              && r.value.group.view == Put(Below(here.view, value), Path(row, fields[num + 1..]), row, oneResult)
    decreases |fields| - num, 0
  {
    if value !in here.slots {
      var empty := new Group();
      r := BuildFieldsStruct(row, fields, num + 1, Dict(empty), oneResult);
    } else {
      assert here.SlotValid(value, |fields| - num, oneResult);
      r := BuildFieldsStruct(row, fields, num + 1, here.slots[value], oneResult);
    }
  }

  /** What the call returns: the rows themselves, a nested dictionary, or the error of a row without a field. */
  datatype Outcome = Rows(rows: seq<Row>) | Nested(group: Group) | MissingField

  method GroupByValue(rows: seq<Row>, fields: seq<string>, oneResult: bool) returns (r: Outcome)
    ensures r.Rows? <==> fields == []
    ensures r.Rows? ==> r.rows == rows
    ensures r.Nested? <==> fields != [] && forall i | 0 <= i < |rows| :: HasFields(rows[i], fields)
    ensures r.Nested? ==>
              r.group.Valid(|fields|, oneResult) && r.group.view == Grouped(rows, fields, oneResult)
  {
    if |fields| == 0 {
      return Rows(rows);
    }
    var groups := new Group();
    if rows == [] {
      return Nested(groups);
    }
    assert fields[0..] == fields;
    for i := 0 to |rows|
      invariant groups.Valid(|fields|, oneResult) && fresh(groups.Repr)
      invariant forall j | 0 <= j < i :: HasFields(rows[j], fields)
      invariant groups.view == Grouped(rows[..i], fields, oneResult)
    {
      var struct := BuildFieldsStruct(rows[i], fields, 0, Dict(groups), oneResult);
      if struct.KeyError? {
        return MissingField;
      }
      assert rows[..i + 1][..i] == rows[..i];
    }
    assert rows[..|rows|] == rows;
    return Nested(groups);
  }

  // ----- What the grouping holds

  /** The structure reached by following a path of values. */
  function At(view: map<string, Tree>, path: seq<string>): Option<Tree>
    requires |path| > 0
    decreases |path|
  {
    if path[0] !in view then None
    else if |path| == 1 then Some(view[path[0]])
    else if view[path[0]].Groups? then At(view[path[0]].below, path[1..])
    else None
  }

  function RowsIn(tree: Option<Tree>): seq<Row> {
    if tree.Some? && tree.value.Leaf? then tree.value.rows else []
  }

  /** The rows whose own values are the path, in the order of the rows. */
  function Matching(rows: seq<Row>, fields: seq<string>, path: seq<string>): seq<Row>
    requires forall i | 0 <= i < |rows| :: HasFields(rows[i], fields)
  {
    if rows == [] then []
    else
      var n := |rows| - 1;
      Matching(rows[..n], fields, path) + if Path(rows[n], fields) == path then [rows[n]] else []
  }

  /** The row has these values in the grouping fields, one by one. */
  ghost predicate Has(row: Row, fields: seq<string>, path: seq<string>) {
    |path| == |fields| && forall i | 0 <= i < |fields| :: fields[i] in row && row[fields[i]] == path[i]
  }

  lemma PathIs(row: Row, fields: seq<string>, path: seq<string>)
    requires HasFields(row, fields)
    ensures Path(row, fields) == path <==> Has(row, fields, path)
  {
  }

  /** `picked` are the rows at the places `at`, in order. */
  ghost predicate PickedAt(rows: seq<Row>, picked: seq<Row>, at: seq<nat>) {
    && |at| == |picked|
    && (forall i | 0 <= i < |at| :: at[i] < |rows| && picked[i] == rows[at[i]])
    && forall i, j | 0 <= i < j < |at| :: at[i] < at[j]
  }

  lemma PickedMore(rows: seq<Row>, picked: seq<Row>, at: seq<nat>, row: Row)
    requires PickedAt(rows, picked, at)
    ensures PickedAt(rows + [row], picked + [row], at + [|rows|]) && PickedAt(rows + [row], picked, at)
  {
  }

  /** The rows so picked are exactly those that have the values, in their order; `at` is where they stood. */
  lemma {:induction false} MatchingPlaces(rows: seq<Row>, fields: seq<string>, path: seq<string>)
    returns (at: seq<nat>)
    requires forall i | 0 <= i < |rows| :: HasFields(rows[i], fields)
    ensures PickedAt(rows, Matching(rows, fields, path), at)
    ensures forall k | 0 <= k < |rows| :: k in at <==> Has(rows[k], fields, path)
    decreases |rows|
  {
    if rows == [] {
      at := [];
    } else {
      var n := |rows| - 1;
      var most, row := rows[..n], rows[n];
      at := MatchingPlaces(most, fields, path);
      assert n !in at;
      PathIs(row, fields, path);
      PickedMore(most, Matching(most, fields, path), at, row);
      assert rows == most + [row];
      assert Matching(most, fields, path) + [] == Matching(most, fields, path);
      if Path(row, fields) == path {
        at := at + [n];
      }
    }
  }

  /** Adding a row changes what its own path reaches, and no other path of that length. */
  lemma {:induction false} PutAt(view: map<string, Tree>, path: seq<string>, row: Row, one: bool, q: seq<string>)
    requires |q| == |path| > 0
    ensures At(Put(view, path, row, one), q)
            == if q != path then At(view, q)
               else Some(if one then Single(row) else Leaf(RowsIn(At(view, path)) + [row]))
    decreases |path|
  {
    if |path| == 1 {
      assert q == path <==> q[0] == path[0];
    } else {
      assert q == path <==> q[0] == path[0] && q[1..] == path[1..];
      PutAt(Below(view, path[0]), path[1..], row, one, q[1..]);
      NothingBelow(q[1..]);
    }
  }

  lemma NothingBelow(q: seq<string>)
    requires |q| > 0
    ensures At(map[], q) == None
  {
  }

  /** A path reaches exactly the rows that have its values, in order; with `one_result`, the last of them. */
  lemma {:induction false} PathReachesItsRows(rows: seq<Row>, fields: seq<string>, one: bool, path: seq<string>)
    requires |path| == |fields| > 0 && forall i | 0 <= i < |rows| :: HasFields(rows[i], fields)
    ensures
      var found := Matching(rows, fields, path);
      At(Grouped(rows, fields, one), path)
      == if found == [] then None else Some(if one then Single(found[|found| - 1]) else Leaf(found))
    decreases |rows|
  {
    if rows != [] {
      var n := |rows| - 1;
      PathReachesItsRows(rows[..n], fields, one, path);
      PutAt(Grouped(rows[..n], fields, one), Path(rows[n], fields), rows[n], one, path);
      assert Matching(rows[..n], fields, path) + [] == Matching(rows[..n], fields, path);
    }
  }

  lemma {:induction false} MatchingCounts(rows: seq<Row>, fields: seq<string>, path: seq<string>, r: Row)
    requires HasFields(r, fields) && forall i | 0 <= i < |rows| :: HasFields(rows[i], fields)
    ensures multiset(Matching(rows, fields, path))[r] == if Path(r, fields) == path then multiset(rows)[r] else 0
    decreases |rows|
  {
    if rows != [] {
      var n := |rows| - 1;
      MatchingCounts(rows[..n], fields, path, r);
      assert rows == rows[..n] + [rows[n]];
    }
  }

  /** The rows met along a list of paths. */
  function Flatten(view: map<string, Tree>, paths: seq<seq<string>>): seq<Row>
    requires forall i | 0 <= i < |paths| :: |paths[i]| > 0
  {
    if paths == [] then []
    else Flatten(view, paths[..|paths| - 1]) + RowsIn(At(view, paths[|paths| - 1]))
  }

  lemma {:induction false} FlattenCounts(rows: seq<Row>, fields: seq<string>, paths: seq<seq<string>>, r: Row)
    requires |fields| > 0 && HasFields(r, fields) && forall i | 0 <= i < |rows| :: HasFields(rows[i], fields)
    requires forall i | 0 <= i < |paths| :: |paths[i]| == |fields|
    requires forall i, j | 0 <= i < j < |paths| :: paths[i] != paths[j]
    ensures multiset(Flatten(Grouped(rows, fields, false), paths))[r]
            == if Path(r, fields) in paths then multiset(rows)[r] else 0
    decreases |paths|
  {
    if paths != [] {
      var n := |paths| - 1;
      FlattenCounts(rows, fields, paths[..n], r);
      PathReachesItsRows(rows, fields, false, paths[n]);
      MatchingCounts(rows, fields, paths[n], r);
      InLast(paths, Path(r, fields));
    }
  }

  lemma InLast(paths: seq<seq<string>>, path: seq<string>)
    requires paths != [] && forall i, j | 0 <= i < j < |paths| :: paths[i] != paths[j]
    ensures path in paths <==> path in paths[..|paths| - 1] || path == paths[|paths| - 1]
    ensures paths[|paths| - 1] !in paths[..|paths| - 1]
  {
  }

  lemma {:induction false} FlattenInRows(rows: seq<Row>, fields: seq<string>, paths: seq<seq<string>>, r: Row)
    requires |fields| > 0 && forall i | 0 <= i < |rows| :: HasFields(rows[i], fields)
    requires forall i | 0 <= i < |paths| :: |paths[i]| == |fields|
    requires r in Flatten(Grouped(rows, fields, false), paths)
    ensures r in rows
    decreases |paths|
  {
    var n := |paths| - 1;
    PathReachesItsRows(rows, fields, false, paths[n]);
    if r in Matching(rows, fields, paths[n]) {
      MatchingInRows(rows, fields, paths[n], r);
    } else {
      FlattenInRows(rows, fields, paths[..n], r);
    }
  }

  lemma {:induction false} MatchingInRows(rows: seq<Row>, fields: seq<string>, path: seq<string>, r: Row)
    requires forall i | 0 <= i < |rows| :: HasFields(rows[i], fields)
    requires r in Matching(rows, fields, path)
    ensures r in rows
    decreases |rows|
  {
    var n := |rows| - 1;
    if r in Matching(rows[..n], fields, path) {
      MatchingInRows(rows[..n], fields, path, r);
    }
  }

  /** Following every path once gives back every row once. */
  lemma FlattenIsPermutation(rows: seq<Row>, fields: seq<string>, paths: seq<seq<string>>)
    requires |fields| > 0 && forall i | 0 <= i < |rows| :: HasFields(rows[i], fields)
    requires forall i | 0 <= i < |paths| :: |paths[i]| == |fields|
    requires forall i, j | 0 <= i < j < |paths| :: paths[i] != paths[j]
    requires forall i | 0 <= i < |rows| :: Path(rows[i], fields) in paths
    ensures multiset(Flatten(Grouped(rows, fields, false), paths)) == multiset(rows)
  {
    var flat := multiset(Flatten(Grouped(rows, fields, false), paths));
    forall r | r in flat ensures flat[r] <= multiset(rows)[r] {
      FlattenInRows(rows, fields, paths, r);
      FlattenCounts(rows, fields, paths, r);
    }
    forall r | r in multiset(rows) ensures multiset(rows)[r] <= flat[r] {
      assert r in rows;
      FlattenCounts(rows, fields, paths, r);
    }
    assert flat <= multiset(rows) && multiset(rows) <= flat;
  }
}
