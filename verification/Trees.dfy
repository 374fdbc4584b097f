/** `as_trees`: rows become a forest by their parent field, linked in place. */
module Trees {
  import opened Options

  class Row {
    const id: int
    const parent: Option<int>
    var children: seq<Row>

    constructor (id: int, parent: Option<int>)
      ensures this.id == id && this.parent == parent
    {
      this.id, this.parent, this.children := id, parent, [];
    }
  }

  /** The row an id stands for: the last one that has it. */
  function RowWith(rows: seq<Row>, id: int): (r: Option<Row>)
    ensures r.Some? ==> r.value in rows && r.value.id == id
    ensures r.None? <==> forall i | 0 <= i < |rows| :: rows[i].id != id
  {
    if rows == [] then None
    else if rows[|rows| - 1].id == id then Some(rows[|rows| - 1])
    else RowWith(rows[..|rows| - 1], id)
  }

  /** The row of the set that a row hangs under. */
  function ParentOf(rows: seq<Row>, r: Row): (p: Option<Row>)
    ensures p.Some? ==> p.value in rows
  {
    if r.parent.None? then None else RowWith(rows, r.parent.value)
  }

  /** The rows of `some` whose place in the forest of `rows` is `place`: the roots or one row's children. */
  function Placed(rows: seq<Row>, some: seq<Row>, place: Option<Row>): seq<Row> {
    if some == [] then []
    else
      var r := some[|some| - 1];
      Placed(rows, some[..|some| - 1], place) + if ParentOf(rows, r) == place then [r] else []
  }

  function Roots(rows: seq<Row>): seq<Row> { Placed(rows, rows, None) }

  function Children(rows: seq<Row>, p: Row): seq<Row> { Placed(rows, rows, Some(p)) }

  ghost predicate Distinct(rows: seq<Row>) {
    forall i, j | 0 <= i < j < |rows| :: rows[i] != rows[j]
  }

  lemma PlacedGrows(rows: seq<Row>, i: nat, place: Option<Row>)
    requires i < |rows|
    ensures Placed(rows, rows[..i + 1], place)
            == Placed(rows, rows[..i], place) + if ParentOf(rows, rows[i]) == place then [rows[i]] else []
  {
    assert rows[..i + 1][..i] == rows[..i];
  }

  /** First pass: index the rows by id and empty their children. */
  method IndexRows(rows: seq<Row>) returns (drows: map<int, Row>)
    modifies rows
    ensures forall id :: id in drows <==> RowWith(rows, id).Some?
    ensures forall id | id in drows :: RowWith(rows, id) == Some(drows[id])
    ensures forall j | 0 <= j < |rows| :: rows[j].children == []
  {
    drows := map[];
    for i := 0 to |rows|
      invariant forall id :: id in drows <==> RowWith(rows[..i], id).Some?
      invariant forall id | id in drows :: RowWith(rows[..i], id) == Some(drows[id])
      invariant forall j | 0 <= j < i :: rows[j].children == []
    {
      var row := rows[i];
      drows := drows[row.id := row];
      row.children := [];
      assert rows[..i + 1][..i] == rows[..i] && rows[..i + 1][i] == row;
    }
    assert rows[..|rows|] == rows;
  }

  method AsTrees(rows: seq<Row>) returns (roots: seq<Row>)
    requires Distinct(rows)
    modifies rows
    ensures forall r :: r in roots <==> IsRoot(rows, r)
    ensures forall i, r | 0 <= i < |rows| :: r in rows[i].children <==> IsChild(rows, i, r)
    ensures roots == Roots(rows)
    ensures forall i | 0 <= i < |rows| :: rows[i].children == Children(rows, rows[i])
  {
    var drows := IndexRows(rows);
    roots := [];
    for i := 0 to |rows|
      invariant roots == Placed(rows, rows[..i], None)
      invariant forall j | 0 <= j < |rows| :: rows[j].children == Placed(rows, rows[..i], Some(rows[j]))
    {
      var row := rows[i];
      PlacedGrows(rows, i, None);
      forall j | 0 <= j < |rows|
        ensures Placed(rows, rows[..i + 1], Some(rows[j]))
                == rows[j].children + if ParentOf(rows, row) == Some(rows[j]) then [row] else []
      {
        PlacedGrows(rows, i, Some(rows[j]));
      }
      if row.parent.None? || row.parent.value !in drows {
        roots := roots + [row];
      } else {
        var above := drows[row.parent.value];
        above.children := above.children + [row];
      }
    }
    assert rows[..|rows|] == rows;
    ForestMeans(rows);
  }

  // ----- Who is whose child

  lemma {:induction false} PlacedHas(rows: seq<Row>, some: seq<Row>, place: Option<Row>, r: Row)
    ensures r in Placed(rows, some, place) <==> r in some && ParentOf(rows, r) == place
    decreases |some|
  {
    if some != [] {
      PlacedHas(rows, some[..|some| - 1], place, r);
      assert some == some[..|some| - 1] + [some[|some| - 1]];
    }
  }

  lemma {:induction false} RowWithIsLast(rows: seq<Row>, i: nat)
    requires Distinct(rows) && i < |rows|
    ensures RowWith(rows, rows[i].id) == Some(rows[i]) <==> forall k | i < k < |rows| :: rows[k].id != rows[i].id
    decreases |rows|
  {
    var n := |rows| - 1;
    if i < n {
      RowWithIsLast(rows[..n], i);
      if rows[n].id != rows[i].id {
        assert forall k | i < k < |rows| :: k == n || rows[k] == rows[..n][k];
      }
    }
  }

  /** The row has no parent in the set. */
  ghost predicate IsRoot(rows: seq<Row>, r: Row) {
    r in rows && (r.parent.None? || forall k | 0 <= k < |rows| :: rows[k].id != r.parent.value)
  }

  /** The parent of `r` is the id of row `i`, the last one that has it. */
  ghost predicate IsChild(rows: seq<Row>, i: nat, r: Row)
    requires i < |rows|
  {
    r in rows && r.parent == Some(rows[i].id) && forall k | i < k < |rows| :: rows[k].id != rows[i].id
  }

  lemma RootsAre(rows: seq<Row>, r: Row)
    ensures r in Roots(rows) <==> IsRoot(rows, r)
  {
    PlacedHas(rows, rows, None, r);
  }

  lemma ChildrenAre(rows: seq<Row>, i: nat, r: Row)
    requires Distinct(rows) && i < |rows|
    ensures r in Children(rows, rows[i]) <==> IsChild(rows, i, r)
  {
    PlacedHas(rows, rows, Some(rows[i]), r);
    RowWithIsLast(rows, i);
  }

  lemma ForestMeans(rows: seq<Row>)
    requires Distinct(rows)
    ensures forall r {:trigger IsRoot(rows, r)} :: r in Roots(rows) <==> IsRoot(rows, r)
    ensures forall i, r {:trigger IsChild(rows, i, r)} | 0 <= i < |rows| ::
              r in Children(rows, rows[i]) <==> IsChild(rows, i, r)
  {
    forall r ensures r in Roots(rows) <==> IsRoot(rows, r) {
      RootsAre(rows, r);
    }
    forall i, r | 0 <= i < |rows| ensures r in Children(rows, rows[i]) <==> IsChild(rows, i, r) {
      ChildrenAre(rows, i, r);
    }
  }

  // ----- Each row exactly once

  /** Appending a row to one list, and to the other when it is picked. */
  lemma CountsGrow(picked: seq<Row>, all: seq<Row>, x: Row, pick: bool, r: Row, hit: bool)
    requires multiset(picked)[r] == if hit then multiset(all)[r] else 0
    requires x == r ==> pick == hit
    ensures multiset(picked + if pick then [x] else [])[r] == if hit then multiset(all + [x])[r] else 0
  {
    SumCounts(picked, if pick then [x] else [], r);
    SumCounts(all, [x], r);
  }

  lemma {:induction false} PlacedCounts(rows: seq<Row>, some: seq<Row>, place: Option<Row>, r: Row)
    ensures multiset(Placed(rows, some, place))[r] == if ParentOf(rows, r) == place then multiset(some)[r] else 0
    decreases |some|
  {
    if some != [] {
      var most, x := some[..|some| - 1], some[|some| - 1];
      PlacedCounts(rows, most, place, r);
      OnePlacedMore(rows, some, place, most, x, Placed(rows, some, place));
      CountsGrow(Placed(rows, most, place), most, x, ParentOf(rows, x) == place, r, ParentOf(rows, r) == place);
    }
  }

  lemma OnePlacedMore(rows: seq<Row>, some: seq<Row>, place: Option<Row>, most: seq<Row>, x: Row, placed: seq<Row>)
    requires some != [] && most == some[..|some| - 1] && x == some[|some| - 1] && placed == Placed(rows, some, place)
    ensures some == most + [x]
    ensures placed == Placed(rows, most, place) + if ParentOf(rows, x) == place then [x] else []
  {
  }

  lemma {:induction false} DistinctCounts(rows: seq<Row>, r: Row)
    requires Distinct(rows)
    ensures multiset(rows)[r] == if r in rows then 1 else 0
    decreases |rows|
  {
    if rows != [] {
      DistinctCounts(rows[1..], r);
      assert rows == [rows[0]] + rows[1..];
    }
  }

  /** Every row is listed once, among the roots or among the children of its parent, and nowhere else. */
  lemma PlacedOnce(rows: seq<Row>, r: Row, place: Option<Row>)
    requires Distinct(rows) && r in rows
    ensures multiset(Placed(rows, rows, place))[r] == if ParentOf(rows, r) == place then 1 else 0
  {
    PlacedCounts(rows, rows, place, r);
    DistinctCounts(rows, r);
  }

  /** Siblings keep the order of the input. */
  lemma {:induction false} PlacedInOrder(rows: seq<Row>, some: seq<Row>, place: Option<Row>, a: nat, b: nat)
    returns (i: nat, j: nat)
    requires a < b < |Placed(rows, some, place)|
    ensures i < j < |some| && some[i] == Placed(rows, some, place)[a] && some[j] == Placed(rows, some, place)[b]
    decreases |some|
  {
    var n := |some| - 1;
    var before := Placed(rows, some[..n], place);
    if b < |before| {
      i, j := PlacedInOrder(rows, some[..n], place, a, b);
    } else {
      i := PlacedFrom(rows, some[..n], place, a);
      j := n;
    }
  }

  lemma {:induction false} PlacedFrom(rows: seq<Row>, some: seq<Row>, place: Option<Row>, a: nat) returns (i: nat)
    requires a < |Placed(rows, some, place)|
    ensures i < |some| && some[i] == Placed(rows, some, place)[a]
    decreases |some|
  {
    var n := |some| - 1;
    if a < |Placed(rows, some[..n], place)| {
      i := PlacedFrom(rows, some[..n], place, a);
    } else {
      i := n;
    }
  }

  // ----- Reachability

  function Ancestor(rows: seq<Row>, r: Row, n: nat): Option<Row> {
    if n == 0 then Some(r)
    else
      match Ancestor(rows, r, n - 1)
      case None => None
      case Some(a) => ParentOf(rows, a)
  }

  /** `n` steps up the parent chain is a root. */
  ghost predicate AtDepth(rows: seq<Row>, r: Row, n: nat) {
    Ancestor(rows, r, n).Some? && Ancestor(rows, r, n + 1).None?
  }

  /** The parent chain of `r` leaves the row set. */
  ghost predicate ChainLeaves(rows: seq<Row>, r: Row) {
    exists n: nat :: Ancestor(rows, r, n).None?
  }

  function AllChildren(rows: seq<Row>, level: seq<Row>): seq<Row> {
    if level == [] then [] else Children(rows, level[0]) + AllChildren(rows, level[1..])
  }

  /** The rows met `n` links below the roots. */
  function Level(rows: seq<Row>, n: nat): seq<Row> {
    if n == 0 then Roots(rows) else AllChildren(rows, Level(rows, n - 1))
  }

  /** The forest flattened down to depth `n`. */
  function Flatten(rows: seq<Row>, n: nat): seq<Row> {
    if n == 0 then [] else Flatten(rows, n - 1) + Level(rows, n - 1)
  }

  lemma {:induction false} ChildrenCounts(rows: seq<Row>, level: seq<Row>, r: Row)
    requires Distinct(rows) && r in rows
    ensures multiset(AllChildren(rows, level))[r]
            == if ParentOf(rows, r).Some? then multiset(level)[ParentOf(rows, r).value] else 0
    decreases |level|
  {
    if level != [] {
      ChildrenCounts(rows, level[1..], r);
      PlacedOnce(rows, r, Some(level[0]));
      SumCounts(Children(rows, level[0]), AllChildren(rows, level[1..]), r);
      if ParentOf(rows, r).Some? {
        SumCounts([level[0]], level[1..], ParentOf(rows, r).value);
        assert level == [level[0]] + level[1..];
      }
    }
  }

  lemma {:induction false} AncestorsShift(rows: seq<Row>, r: Row, n: nat)
    ensures Ancestor(rows, r, n + 1)
            == if ParentOf(rows, r).None? then None else Ancestor(rows, ParentOf(rows, r).value, n)
  {
    if n > 0 {
      AncestorsShift(rows, r, n - 1);
    }
  }

  lemma DepthShifts(rows: seq<Row>, r: Row, n: nat)
    ensures AtDepth(rows, r, n + 1) <==> ParentOf(rows, r).Some? && AtDepth(rows, ParentOf(rows, r).value, n)
  {
    AncestorsShift(rows, r, n);
    AncestorsShift(rows, r, n + 1);
  }

  /** A row is met at its depth, once, and at no other. */
  lemma {:induction false} LevelCounts(rows: seq<Row>, r: Row, n: nat)
    requires Distinct(rows) && r in rows
    ensures multiset(Level(rows, n))[r] == if AtDepth(rows, r, n) then 1 else 0
    decreases n
  {
    if n == 0 {
      RootCounts(rows, r);
    } else {
      var m := n - 1;
      var p := ParentOf(rows, r);
      assert Level(rows, n) == AllChildren(rows, Level(rows, m));
      ChildrenCounts(rows, Level(rows, m), r);
      DepthShifts(rows, r, m);
      if p.Some? {
        LevelCounts(rows, p.value, m);
      }
    }
  }

  lemma RootCounts(rows: seq<Row>, r: Row)
    requires Distinct(rows) && r in rows
    ensures multiset(Level(rows, 0))[r] == if AtDepth(rows, r, 0) then 1 else 0
  {
    PlacedOnce(rows, r, None);
    AncestorsShift(rows, r, 0);
  }

  lemma {:induction false} AncestorsEnd(rows: seq<Row>, r: Row, n: nat, m: nat)
    requires n <= m && Ancestor(rows, r, n).None?
    ensures Ancestor(rows, r, m).None?
    decreases m
  {
    if n < m {
      AncestorsEnd(rows, r, n, m - 1);
    }
  }

  lemma {:induction false} DepthBelow(rows: seq<Row>, r: Row, n: nat) returns (d: nat)
    requires Ancestor(rows, r, n).None?
    ensures d < n && AtDepth(rows, r, d)
  {
    if n > 0 && Ancestor(rows, r, n - 1).None? {
      d := DepthBelow(rows, r, n - 1);
    } else {
      d := n - 1;
    }
  }

  /** A row is reachable from the roots exactly when its parent chain leaves the row set. */
  lemma ReachableIffChainLeaves(rows: seq<Row>, r: Row)
    requires Distinct(rows) && r in rows
    ensures (exists n: nat :: r in Level(rows, n)) <==> ChainLeaves(rows, r)
  {
    if n: nat :| r in Level(rows, n) {
      LevelCounts(rows, r, n);
      assert r in multiset(Level(rows, n));
    }
    if ChainLeaves(rows, r) {
      var n: nat :| Ancestor(rows, r, n).None?;
      var d := DepthBelow(rows, r, n);
      LevelCounts(rows, r, d);
      assert r in multiset(Level(rows, d));
    }
  }

  /** How often the forest flattened to depth `n` lists a row. */
  function Occurrences(rows: seq<Row>, r: Row, n: nat): nat {
    multiset(Flatten(rows, n))[r]
  }

  lemma {:induction false} FlattenCounts(rows: seq<Row>, r: Row, n: nat)
    requires Distinct(rows) && r in rows
    ensures Occurrences(rows, r, n) == if Ancestor(rows, r, n).None? then 1 else 0
    decreases n
  {
    if n == 0 {
      assert Flatten(rows, 0) == [];
    } else {
      FlattenCounts(rows, r, n - 1);
      FlattenGrows(rows, r, n - 1);
    }
  }

  lemma FlattenGrows(rows: seq<Row>, r: Row, m: nat)
    requires Distinct(rows) && r in rows
    requires Occurrences(rows, r, m) == if Ancestor(rows, r, m).None? then 1 else 0
    ensures Occurrences(rows, r, m + 1) == if Ancestor(rows, r, m + 1).None? then 1 else 0
  {
    LevelCounts(rows, r, m);
    SumCounts(Flatten(rows, m), Level(rows, m), r);
    LeavesOnce(rows, r, m);
  }

  lemma LeavesOnce(rows: seq<Row>, r: Row, m: nat)
    ensures Ancestor(rows, r, m + 1).None? <==> Ancestor(rows, r, m).None? || AtDepth(rows, r, m)
    ensures !(Ancestor(rows, r, m).None? && AtDepth(rows, r, m))
  {
    if Ancestor(rows, r, m).None? {
      AncestorsEnd(rows, r, m, m + 1);
    }
  }

  lemma SumCounts(a: seq<Row>, b: seq<Row>, r: Row)
    ensures multiset(a + b)[r] == multiset(a)[r] + multiset(b)[r]
  {
  }

  lemma {:induction false} AllChildrenInRows(rows: seq<Row>, level: seq<Row>, r: Row)
    requires r in AllChildren(rows, level)
    ensures r in rows
    decreases |level|
  {
    if r in Children(rows, level[0]) {
      var a :| 0 <= a < |Children(rows, level[0])| && Children(rows, level[0])[a] == r;
      var i := PlacedFrom(rows, rows, Some(level[0]), a);
    } else {
      AllChildrenInRows(rows, level[1..], r);
    }
  }

  lemma LevelInRows(rows: seq<Row>, n: nat, r: Row)
    requires r in Level(rows, n)
    ensures r in rows
  {
    if n == 0 {
      var a :| 0 <= a < |Roots(rows)| && Roots(rows)[a] == r;
      var i := PlacedFrom(rows, rows, None, a);
    } else {
      AllChildrenInRows(rows, Level(rows, n - 1), r);
    }
  }

  lemma {:induction false} FlattenInRows(rows: seq<Row>, n: nat, r: Row)
    requires r in Flatten(rows, n)
    ensures r in rows
  {
    if r in Level(rows, n - 1) {
      LevelInRows(rows, n - 1, r);
    } else {
      FlattenInRows(rows, n - 1, r);
    }
  }

  lemma {:induction false} CommonDepth(rows: seq<Row>, some: seq<Row>) returns (n: nat)
    requires forall r | r in some :: ChainLeaves(rows, r)
    ensures forall r | r in some :: Ancestor(rows, r, n).None?
    decreases |some|
  {
    n := 0;
    if some != [] {
      assert forall r | r in some[1..] :: r in some;
      var m := CommonDepth(rows, some[1..]);
      assert some[0] in some;
      var k: nat :| Ancestor(rows, some[0], k).None?;
      n := if m < k then k else m;
      forall r | r in some ensures Ancestor(rows, r, n).None? {
        AncestorsEnd(rows, r, if r == some[0] then k else m, n);
      }
    }
  }

  /** With acyclic parents the flattened forest is a permutation of the rows. */
  lemma AcyclicFlattenIsPermutation(rows: seq<Row>) returns (n: nat)
    requires Distinct(rows) && forall r | r in rows :: ChainLeaves(rows, r)
    ensures multiset(Flatten(rows, n)) == multiset(rows) && Level(rows, n) == []
  {
    n := CommonDepth(rows, rows);
    var flat := multiset(Flatten(rows, n));
    forall r | r in flat ensures flat[r] <= multiset(rows)[r] {
      FlattenInRows(rows, n, r);
      FlattenCounts(rows, r, n);
      DistinctCounts(rows, r);
      assert Occurrences(rows, r, n) == flat[r];
    }
    forall r | r in multiset(rows) ensures multiset(rows)[r] <= flat[r] {
      FlattenCounts(rows, r, n);
      DistinctCounts(rows, r);
      assert Occurrences(rows, r, n) == flat[r];
    }
    assert flat <= multiset(rows) && multiset(rows) <= flat;
    if Level(rows, n) != [] {
      var r := Level(rows, n)[0];
      LevelInRows(rows, n, r);
      LevelCounts(rows, r, n);
    }
  }
}
