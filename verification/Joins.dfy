/** The FROM clause of a select with `join=` or `left=`: which tables it lists, and how often. */
module Joins {
  import opened Options
  import opened TableMaps

  /** An item of `join=` or `left=`: a bare table, or `table.on(condition)` with the tables of the condition. */
  datatype Item = Bare(target: Table) | On(target: Table, mentioned: seq<Table>)

  datatype Kind = Cross | Inner | Left

  /** A join; `LEFT JOIN t ON TRUE` has no condition. */
  datatype Join = Join(kind: Kind, target: Table, condition: Option<Item>)

  datatype Clause = Clause(sources: seq<Table>, joins: seq<Join>)

  /** How the tables of a select fall into classes. */
  datatype Split = Split(
    bare: seq<Table>,
    on: seq<Item>,
    toMerge: seq<Table>,
    excluded: seq<Table>,
    targets: seq<Table>)

  function Targets(items: seq<Item>): (r: seq<Table>)
    ensures |r| == |items| && forall i | 0 <= i < |items| :: r[i] == items[i].target
  {
    seq(|items|, i requires 0 <= i < |items| => items[i].target)
  }

  function BareTables(items: seq<Item>): seq<Table> {
    if items == [] then []
    else
      var it := items[|items| - 1];
      BareTables(items[..|items| - 1]) + if it.Bare? then [it.target] else []
  }

  function Ons(items: seq<Item>): (r: seq<Item>)
    ensures forall i | 0 <= i < |r| :: r[i].On?
  {
    if items == [] then []
    else
      var it := items[|items| - 1];
      Ons(items[..|items| - 1]) + if it.On? then [it] else []
  }

  /** The dictionary of a list of tables: each name once, where it first appears. */
  function Keyed(ts: seq<Table>): seq<Table> {
    if ts == [] then []
    else
      var below := Keyed(ts[..|ts| - 1]);
      var t := ts[|ts| - 1];
      if Find(below, t.name).Some? then below else below + [t]
  }

  /** The tables of all the conditions. */
  function Mentioned(ons: seq<Item>): seq<Table>
    requires forall i | 0 <= i < |ons| :: ons[i].On?
  {
    if ons == [] then [] else Merged(Mentioned(ons[..|ons| - 1]), ons[|ons| - 1].mentioned)
  }

  /** Each condition's tables agree with those of the conditions before it. */
  ghost predicate ConditionsAgree(ons: seq<Item>)
    requires forall i | 0 <= i < |ons| :: ons[i].On?
  {
    ons == []
    || (ConditionsAgree(ons[..|ons| - 1]) && Agree(Mentioned(ons[..|ons| - 1]), ons[|ons| - 1].mentioned))
  }

  /** The tables whose name none of `others` has. */
  function Without(ts: seq<Table>, others: seq<Table>): seq<Table> {
    if ts == [] then []
    else
      var t := ts[|ts| - 1];
      Without(ts[..|ts| - 1], others) + if Find(others, t.name).None? then [t] else []
  }

  ghost predicate WellFormed(items: seq<Item>) {
    forall i | 0 <= i < |items| && items[i].On? :: Dictionary(items[i].mentioned)
  }

  /** The tables of the conditions, but for those that are joined on. */
  function ToMerge(items: seq<Item>): seq<Table> {
    Without(Mentioned(Ons(items)), Targets(Ons(items)))
  }

  function SplitOf(tablemap: seq<Table>, items: seq<Item>): Split {
    var on := Ons(items);
    var bare := BareTables(items);
    var toMerge := ToMerge(items);
    Split(bare, on, toMerge, Without(tablemap, bare + Targets(on) + toMerge), Keyed(Targets(items)))
  }

  /** The items name no two different objects alike, and neither do their conditions. */
  ghost predicate ItemsAgree(items: seq<Item>) {
    Agree(Targets(items), Targets(items)) && ConditionsAgree(Ons(items))
  }

  lemma {:induction false} KeyedHolds(ts: seq<Table>)
    requires Agree(ts, ts)
    ensures Dictionary(Keyed(ts)) && forall t :: t in Keyed(ts) <==> t in ts
    decreases |ts|
  {
    if ts != [] {
      var n := |ts| - 1;
      AgreeInside(ts, n);
      KeyedHolds(ts[..n]);
      assert ts == ts[..n] + [ts[n]];
      assert Fits(ts, ts[n]);
      var below := Keyed(ts[..n]);
      assert (below + [ts[n]])[..|below|] == below;
    }
  }

  lemma AgreeInside(ts: seq<Table>, n: nat)
    requires n <= |ts| && Agree(ts, ts)
    ensures Agree(ts[..n], ts[..n])
  {
    forall t | t in ts[..n] ensures Fits(ts[..n], t) {
      assert Fits(ts, t);
    }
  }

  lemma AgreeOneMore(ts: seq<Table>, n: nat)
    requires n < |ts| && Agree(ts[..n], ts[..n])
    ensures Agree(ts[..n + 1], ts[..n + 1]) <==> Fits(ts[..n], ts[n])
  {
    var more := ts[..n + 1];
    assert more == ts[..n] + [ts[n]];
    if Fits(ts[..n], ts[n]) {
      forall t | t in more ensures Fits(more, t) {
        assert t in ts[..n] ==> Fits(ts[..n], t);
      }
    }
    if Agree(more, more) {
      assert ts[n] in more && Fits(more, ts[n]);
    }
  }

  lemma {:induction false} MentionedIsDictionary(ons: seq<Item>)
    requires forall i | 0 <= i < |ons| :: ons[i].On? && Dictionary(ons[i].mentioned)
    requires ConditionsAgree(ons)
    ensures Dictionary(Mentioned(ons))
    decreases |ons|
  {
    if ons != [] {
      var n := |ons| - 1;
      MentionedIsDictionary(ons[..n]);
      MergedIsUnion(Mentioned(ons[..n]), ons[n].mentioned);
    }
  }

  lemma {:induction false} WithoutBoth(ts: seq<Table>, a: seq<Table>, t: Table)
    ensures Without(Without(ts, a), [t]) == Without(ts, a + [t])
    decreases |ts|
  {
    if ts != [] {
      var last := ts[|ts| - 1];
      WithoutBoth(ts[..|ts| - 1], a, t);
      var below := Without(ts[..|ts| - 1], a);
      assert (below + [last])[..|below|] == below;
      assert below + [] == below;
      assert Find(a + [t], last.name).None? <==> Find(a, last.name).None? && Find([t], last.name).None?;
    }
  }

  lemma {:induction false} WithoutHas(ts: seq<Table>, others: seq<Table>)
    ensures forall t :: t in Without(ts, others) <==> t in ts && Find(others, t.name).None?
    decreases |ts|
  {
    if ts != [] {
      WithoutHas(ts[..|ts| - 1], others);
      assert ts == ts[..|ts| - 1] + [ts[|ts| - 1]];
    }
  }

  lemma {:induction false} WithoutNothing(ts: seq<Table>)
    ensures Without(ts, []) == ts
    decreases |ts|
  {
    if ts != [] {
      WithoutNothing(ts[..|ts| - 1]);
    }
  }

  lemma {:induction false} OnsWellFormed(items: seq<Item>)
    requires WellFormed(items)
    ensures forall i | 0 <= i < |Ons(items)| :: Dictionary(Ons(items)[i].mentioned)
    decreases |items|
  {
    if items != [] {
      OnsWellFormed(items[..|items| - 1]);
    }
  }

  method ItemMap(items: seq<Item>) returns (r: Result<seq<Table>>)
    ensures r == if Agree(Targets(items), Targets(items)) then Ok(Keyed(Targets(items))) else Err(NameConflict)
  {
    var tablemap := [];
    ghost var ts := Targets(items);
    for i := 0 to |items|
      invariant Agree(ts[..i], ts[..i]) && tablemap == Keyed(ts[..i])
    {
      var held := Find(tablemap, items[i].target.name);
      KeyedHolds(ts[..i]);
      AgreeOneMore(ts, i);
      if held.Some? && held.value != items[i].target {
        assert !Fits(ts[..i], ts[i]);
        if Agree(ts, ts) {
          AgreeInside(ts, i + 1);
          assert false;
        }
        return Err(NameConflict);
      }
      FitsIfFound(tablemap, ts[i]);
      assert Fits(ts[..i], ts[i]);
      assert ts[..i + 1][..i] == ts[..i];
      if held.None? {
        tablemap := tablemap + [items[i].target];
      }
    }
    assert ts[..|ts|] == ts;
    return Ok(tablemap);
  }

  lemma ConditionsGrow(ons: seq<Item>, n: nat)
    requires n < |ons| && forall i | 0 <= i < |ons| :: ons[i].On?
    ensures Mentioned(ons[..n + 1]) == Merged(Mentioned(ons[..n]), ons[n].mentioned)
    ensures ConditionsAgree(ons[..n + 1])
            <==> ConditionsAgree(ons[..n]) && Agree(Mentioned(ons[..n]), ons[n].mentioned)
  {
    var more := ons[..n + 1];
    assert more[..n] == ons[..n] && more[n] == ons[n];
  }

  method MergeConditions(ons: seq<Item>) returns (r: Result<seq<Table>>)
    requires forall i | 0 <= i < |ons| :: ons[i].On? && Dictionary(ons[i].mentioned)
    ensures r.Ok? <==> ConditionsAgree(ons)
    ensures r == if r.Ok? then Ok(Mentioned(ons)) else Err(NameConflict)
  {
    var merged := [];
    for i := 0 to |ons|
      invariant ConditionsAgree(ons[..i]) && merged == Mentioned(ons[..i])
    {
      MentionedIsDictionary(ons[..i]);
      ConditionsGrow(ons, i);
      var next := MergeTablemaps(merged, ons[i].mentioned);
      if next.Err? {
        DisagreementStays(ons, i + 1);
        return next;
      }
      merged := next.value;
    }
    assert ons[..|ons|] == ons;
    return Ok(merged);
  }

  lemma {:induction false} DisagreementStays(ons: seq<Item>, n: nat)
    requires n <= |ons| && forall i | 0 <= i < |ons| :: ons[i].On?
    requires !ConditionsAgree(ons[..n])
    ensures !ConditionsAgree(ons)
    decreases |ons|
  {
    if n < |ons| {
      assert ons[..|ons| - 1][..n] == ons[..n];
      DisagreementStays(ons[..|ons| - 1], n);
    } else {
      assert ons[..n] == ons;
    }
  }

  /** Joined tables leave the map of the mentioned ones. */
  method PopAll(merged: seq<Table>, joinedOn: seq<Table>) returns (toMerge: seq<Table>)
    ensures toMerge == Without(merged, joinedOn)
  {
    toMerge := merged;
    WithoutNothing(merged);
    for i := 0 to |joinedOn|
      invariant toMerge == Without(merged, joinedOn[..i])
    {
      WithoutBoth(merged, joinedOn[..i], joinedOn[i]);
      assert joinedOn[..i + 1] == joinedOn[..i] + [joinedOn[i]];
      toMerge := Without(toMerge, [joinedOn[i]]);
    }
    assert joinedOn[..|joinedOn|] == joinedOn;
  }

  method BuildJoinsForSelect(tablemap: seq<Table>, items: seq<Item>) returns (r: Result<Split>)
    requires WellFormed(items)
    ensures r.Ok? <==> ItemsAgree(items)
    ensures r == if r.Ok? then Ok(SplitOf(tablemap, items)) else Err(NameConflict)
  {
    var keyed := ItemMap(items);
    if keyed.Err? {
      return Err(NameConflict);
    }
    var bare, on := BareTables(items), Ons(items);
    OnsWellFormed(items);
    var merged := MergeConditions(on);
    if merged.Err? {
      return Err(NameConflict);
    }
    var joinedOn := Targets(on);
    var toMerge := PopAll(merged.value, joinedOn);
    var excluded := Without(tablemap, bare + joinedOn + toMerge);
    return Ok(Split(bare, on, toMerge, excluded, keyed.value));
  }

  // ----- The clause

  /** The tables left for the cross product: those of the query no join lists, then those only conditions mention. */
  function CrossPool(tablemap: seq<Table>, items: seq<Item>): seq<Table> {
    SplitOf(tablemap, items).excluded + ToMerge(items)
  }

  function Joined(kind: Kind, ts: seq<Table>): seq<Join> {
    seq(|ts|, i requires 0 <= i < |ts| => Join(kind, ts[i], None))
  }

  function JoinedOn(kind: Kind, ons: seq<Item>): seq<Join> {
    seq(|ons|, i requires 0 <= i < |ons| => Join(kind, ons[i].target, Some(ons[i])))
  }

  /** `join=` makes bare tables cross joins and the others inner joins; `left=` makes all of them left joins. */
  function ClauseOf(tablemap: seq<Table>, items: seq<Item>, left: bool): Clause
    requires CrossPool(tablemap, items) != []
  {
    var pool := CrossPool(tablemap, items);
    Clause([pool[0]],
           Joined(Cross, pool[1..])
           + Joined(if left then Left else Cross, BareTables(items))
           + JoinedOn(if left then Left else Inner, Ons(items)))
  }

  /** A table in `left=` is joined by a left join; in `join=` a bare one by a cross join, one with a condition
      by an inner join. A condition comes with its table. */
  function AsJoin(it: Item, left: bool): Join {
    match it
    case Bare(t) => Join(if left then Left else Cross, t, None)
    case On(t, _) => Join(if left then Left else Inner, t, Some(it))
  }

  function AsJoins(items: seq<Item>, left: bool): seq<Join> {
    seq(|items|, i requires 0 <= i < |items| => AsJoin(items[i], left))
  }

  /** The clause ends with the items, each joined as it says, after cross joins of other tables. */
  ghost predicate JoinsItems(c: Clause, items: seq<Item>, left: bool) {
    var n := |c.joins| - |items|;
    && |c.sources| == 1 && n >= 0
    && multiset(c.joins[n..]) == multiset(AsJoins(items, left))
    && forall i | 0 <= i < n :: c.joins[i].kind == Cross && c.joins[i].condition == None
  }

  lemma {:induction false} ItemsAsJoins(items: seq<Item>, left: bool)
    ensures multiset(Joined(if left then Left else Cross, BareTables(items)))
            + multiset(JoinedOn(if left then Left else Inner, Ons(items)))
            == multiset(AsJoins(items, left))
    ensures |BareTables(items)| + |Ons(items)| == |items|
    decreases |items|
  {
    if items != [] {
      var n := |items| - 1;
      ItemsAsJoins(items[..n], left);
      AsJoinsGrow(items, left);
    }
  }

  lemma AsJoinsGrow(items: seq<Item>, left: bool)
    requires items != []
    ensures var most, last := items[..|items| - 1], AsJoin(items[|items| - 1], left);
            var bare, on := if left then Left else Cross, if left then Left else Inner;
            && multiset(AsJoins(items, left)) == multiset(AsJoins(most, left)) + multiset{last}
            && multiset(Joined(bare, BareTables(items))) + multiset(JoinedOn(on, Ons(items)))
               == multiset(Joined(bare, BareTables(most))) + multiset(JoinedOn(on, Ons(most))) + multiset{last}
  {
    var most, it := items[..|items| - 1], items[|items| - 1];
    var last := AsJoin(it, left);
    assert AsJoins(items, left) == AsJoins(most, left) + [last];
    if it.Bare? {
      var kind := if left then Left else Cross;
      assert Ons(items) == Ons(most);
      assert Joined(kind, BareTables(items)) == Joined(kind, BareTables(most)) + [last];
    } else {
      var kind := if left then Left else Inner;
      assert BareTables(items) == BareTables(most);
      assert JoinedOn(kind, Ons(items)) == JoinedOn(kind, Ons(most)) + [last];
    }
  }

  lemma ClauseJoinsItems(tablemap: seq<Table>, items: seq<Item>, left: bool)
    requires CrossPool(tablemap, items) != []
    ensures JoinsItems(ClauseOf(tablemap, items, left), items, left)
  {
    var crosses := Joined(Cross, CrossPool(tablemap, items)[1..]);
    var bare := Joined(if left then Left else Cross, BareTables(items));
    var on := JoinedOn(if left then Left else Inner, Ons(items));
    ItemsAsJoins(items, left);
    assert crosses + bare + on == crosses + (bare + on);
    assert ClauseOf(tablemap, items, left).joins[|crosses|..] == bare + on;
  }

  /** No two tables the clause looks up by name are told apart only by their object. */
  ghost predicate NamesAgree(tablemap: seq<Table>, items: seq<Item>) {
    && ItemsAgree(items)
    && Agree(tablemap, ToMerge(items))
    && Agree(Merged(tablemap, ToMerge(items)), Keyed(Targets(items)))
  }

  /** The table map of the whole clause. */
  method WholeMap(tablemap: seq<Table>, items: seq<Item>, split: Split) returns (r: Result<seq<Table>>)
    requires Dictionary(tablemap) && WellFormed(items) && ItemsAgree(items) && split == SplitOf(tablemap, items)
    ensures r.Ok? <==> NamesAgree(tablemap, items)
    ensures r.Err? ==> r.error == NameConflict
    ensures r.Ok? ==> forall t | t in CrossPool(tablemap, items) :: Find(r.value, t.name) == Some(t)
  {
    ToMergeIsDictionary(items);
    var whole := MergeTablemaps(tablemap, split.toMerge);
    if whole.Err? {
      return Err(NameConflict);
    }
    MergedIsUnion(tablemap, split.toMerge);
    KeyedHolds(Targets(items));
    r := MergeTablemaps(whole.value, split.targets);
    if r.Ok? {
      MergedIsUnion(whole.value, split.targets);
      WithoutHas(tablemap, split.bare + Targets(split.on) + split.toMerge);
      forall t | t in CrossPool(tablemap, items) ensures Find(r.value, t.name) == Some(t) {
        FindInDictionary(r.value, t);
      }
    }
  }

  method CrossJoins(whole: seq<Table>, pool: seq<Table>) returns (joins: seq<Join>)
    requires pool != [] && forall t | t in pool :: Find(whole, t.name) == Some(t)
    ensures joins == Joined(Cross, pool[1..])
  {
    joins := [];
    for i := 1 to |pool|
      invariant joins == Joined(Cross, pool[1..i])
    {
      joins := joins + [Join(Cross, Find(whole, pool[i].name).value, None)];
    }
    assert pool[1..|pool|] == pool[1..];
  }

  /** The bare tables, then the others, after the cross joins. */
  method ItemJoins(crosses: seq<Join>, bare: seq<Table>, on: seq<Item>, left: bool) returns (joins: seq<Join>)
    ensures joins == crosses + Joined(if left then Left else Cross, bare) + JoinedOn(if left then Left else Inner, on)
  {
    joins := crosses;
    var kind := if left then Left else Cross;
    for i := 0 to |bare|
      invariant joins == crosses + Joined(kind, bare[..i])
    {
      joins := joins + [Join(kind, bare[i], None)];
    }
    assert bare[..|bare|] == bare;
    ghost var bares := joins;
    kind := if left then Left else Inner;
    for i := 0 to |on|
      invariant joins == bares + JoinedOn(kind, on[..i])
    {
      joins := joins + [Join(kind, on[i].target, Some(on[i]))];
    }
    assert on[..|on|] == on;
  }

  method BuildFromClause(tablemap: seq<Table>, join: seq<Item>, left: seq<Item>) returns (r: Result<Clause>)
    requires Dictionary(tablemap) && WellFormed(join) && WellFormed(left)
    ensures join == [] && left == [] ==> r == Ok(Clause(tablemap, []))
    ensures join != [] || left != [] ==>
              var items := if join != [] then join else left;
              && (r.Ok? <==> NamesAgree(tablemap, items) && CrossPool(tablemap, items) != [])
              && (r == Err(NoAnchor) <==> NamesAgree(tablemap, items) && CrossPool(tablemap, items) == [])
              && (r.Ok? ==> r.value == ClauseOf(tablemap, items, join == []))
              && (r.Ok? ==> JoinsItems(r.value, items, join == []))
              && (r.Ok? ==> forall n :: Lists(r.value, n) <==> Uses(tablemap, items, n))
              && (r == Err(NameConflict) <==> SeesConflict(tablemap, items))
              && (r == Err(NoAnchor) <==> !SeesConflict(tablemap, items) && AllJoined(tablemap, items))
  {
    if join == [] && left == [] {
      return Ok(Clause(tablemap, []));
    }
    var items := if join != [] then join else left;
    ClauseMeans(tablemap, items, join == []);
    var split := BuildJoinsForSelect(tablemap, items);
    if split.Err? {
      return Err(NameConflict);
    }
    var whole := WholeMap(tablemap, items, split.value);
    if whole.Err? {
      return Err(NameConflict);
    }
    var pool := split.value.excluded + split.value.toMerge;
    if pool == [] {
      return Err(NoAnchor);
    }
    var joins := CrossJoins(whole.value, pool);
    joins := ItemJoins(joins, split.value.bare, split.value.on, join == []);
    ClauseJoinsItems(tablemap, items, join == []);
    return Ok(Clause([Find(whole.value, pool[0].name).value], joins));
  }

  lemma ToMergeIsDictionary(items: seq<Item>)
    requires WellFormed(items) && ConditionsAgree(Ons(items))
    ensures Dictionary(ToMerge(items))
  {
    OnsWellFormed(items);
    MentionedIsDictionary(Ons(items));
    WithoutIsDictionary(Mentioned(Ons(items)), Targets(Ons(items)));
  }

  lemma {:induction false} WithoutIsDictionary(ts: seq<Table>, others: seq<Table>)
    requires Dictionary(ts)
    ensures Dictionary(Without(ts, others))
    decreases |ts|
  {
    if ts != [] {
      var n := |ts| - 1;
      WithoutIsDictionary(ts[..n], others);
      WithoutHas(ts[..n], others);
      var below := Without(ts[..n], others);
      assert (below + [ts[n]])[..|below|] == below;
      assert below + [] == below;
    }
  }

  // ----- What the clause lists

  function Names(ts: seq<Table>): set<string> {
    set t | t in ts :: t.name
  }

  function JoinTargets(joins: seq<Join>): seq<Table> {
    seq(|joins|, i requires 0 <= i < |joins| => joins[i].target)
  }

  /** Every table the clause lists, in order. */
  function Listed(c: Clause): seq<Table> {
    c.sources + JoinTargets(c.joins)
  }

  ghost predicate Apart(a: seq<Table>, b: seq<Table>) {
    Names(a) !! Names(b)
  }

  lemma TargetsOfSum(a: seq<Join>, b: seq<Join>)
    ensures JoinTargets(a + b) == JoinTargets(a) + JoinTargets(b)
  {
  }

  lemma TargetsOfJoined(kind: Kind, ts: seq<Table>, ons: seq<Item>)
    ensures JoinTargets(Joined(kind, ts)) == ts && JoinTargets(JoinedOn(kind, ons)) == Targets(ons)
  {
  }

  lemma ListedInOrder(tablemap: seq<Table>, items: seq<Item>, left: bool)
    requires CrossPool(tablemap, items) != []
    ensures Listed(ClauseOf(tablemap, items, left))
            == CrossPool(tablemap, items) + (BareTables(items) + Targets(Ons(items)))
  {
    var pool := CrossPool(tablemap, items);
    var crosses := Joined(Cross, pool[1..]);
    var bares := Joined(if left then Left else Cross, BareTables(items));
    var ons := JoinedOn(if left then Left else Inner, Ons(items));
    TargetsOfSum(crosses + bares, ons);
    TargetsOfSum(crosses, bares);
    TargetsOfJoined(Cross, pool[1..], []);
    TargetsOfJoined(if left then Left else Cross, BareTables(items), []);
    TargetsOfJoined(if left then Left else Inner, [], Ons(items));
    Regroup(pool, BareTables(items), Targets(Ons(items)));
  }

  lemma Regroup(pool: seq<Table>, bare: seq<Table>, on: seq<Table>)
    requires pool != []
    ensures [pool[0]] + (pool[1..] + bare + on) == pool + (bare + on)
  {
  }

  lemma {:induction false} FindIsName(ts: seq<Table>, name: string)
    ensures Find(ts, name).Some? <==> name in Names(ts)
  {
  }

  lemma NamesOfSum(a: seq<Table>, b: seq<Table>)
    ensures Names(a + b) == Names(a) + Names(b)
  {
  }

  lemma WithoutNames(ts: seq<Table>, others: seq<Table>)
    ensures Names(Without(ts, others)) == Names(ts) - Names(others)
  {
    WithoutHas(ts, others);
    forall t | t in ts ensures Find(others, t.name).None? <==> t.name !in Names(others) {
      FindIsName(others, t.name);
    }
  }

  lemma {:induction false} ItemNames(items: seq<Item>)
    ensures Names(Targets(items)) == Names(BareTables(items)) + Names(Targets(Ons(items)))
    decreases |items|
  {
    if items != [] {
      var n := |items| - 1;
      ItemNames(items[..n]);
      SplitLast(items);
      NamesOfSum(Targets(items[..n]), [items[n].target]);
      NamesOfSum(BareTables(items[..n]), [items[n].target]);
      NamesOfSum(Targets(Ons(items[..n])), [items[n].target]);
    }
  }

  lemma SplitLast(items: seq<Item>)
    requires items != []
    ensures
      var n := |items| - 1;
      && Targets(items) == Targets(items[..n]) + [items[n].target]
      && (items[n].Bare? ==> BareTables(items) == BareTables(items[..n]) + [items[n].target])
      && (items[n].Bare? ==> Targets(Ons(items)) == Targets(Ons(items[..n])))
      && (items[n].On? ==> BareTables(items) == BareTables(items[..n]))
      && (items[n].On? ==> Targets(Ons(items)) == Targets(Ons(items[..n])) + [items[n].target])
  {
  }

  lemma PoolNames(tablemap: seq<Table>, items: seq<Item>)
    ensures
      var mentioned := Names(Mentioned(Ons(items))) - Names(Targets(Ons(items)));
      && Names(ToMerge(items)) == mentioned
      && Names(SplitOf(tablemap, items).excluded) == Names(tablemap) - Names(Targets(items)) - mentioned
      && Names(CrossPool(tablemap, items)) == (Names(tablemap) - Names(Targets(items))) + mentioned
  {
    ItemNames(items);
    var bare, on, toMerge := BareTables(items), Ons(items), ToMerge(items);
    WithoutNames(tablemap, bare + Targets(on) + toMerge);
    WithoutNames(Mentioned(on), Targets(on));
    NamesOfSum(bare, Targets(on));
    NamesOfSum(bare + Targets(on), toMerge);
    NamesOfSum(SplitOf(tablemap, items).excluded, toMerge);
  }

  /** The clause lists every table of the query, the join targets and the conditions, and nothing else. */
  lemma ListsTheUsedTables(tablemap: seq<Table>, items: seq<Item>, left: bool)
    requires CrossPool(tablemap, items) != []
    ensures Names(Listed(ClauseOf(tablemap, items, left)))
            == Names(tablemap) + Names(Targets(items)) + Names(Mentioned(Ons(items)))
  {
    ListedInOrder(tablemap, items, left);
    ItemNames(items);
    PoolNames(tablemap, items);
    NamesOfSum(BareTables(items), Targets(Ons(items)));
    NamesOfSum(CrossPool(tablemap, items), BareTables(items) + Targets(Ons(items)));
    PoolAndJoined(Names(tablemap), Names(Mentioned(Ons(items))), Names(BareTables(items)), Names(Targets(Ons(items))));
  }

  lemma PoolAndJoined(used: set<string>, mentioned: set<string>, bare: set<string>, on: set<string>)
    ensures ((used - (bare + on)) + (mentioned - on)) + (bare + on) == used + (bare + on) + mentioned
  {
  }

  lemma EmptyPool(used: set<string>, mentioned: set<string>, joined: set<string>, on: set<string>)
    ensures (used - joined) + (mentioned - on) == {} <==> used <= joined && mentioned <= on
  {
    assert forall x | x in used && x !in joined :: x in (used - joined) + (mentioned - on);
    assert forall x | x in mentioned && x !in on :: x in (used - joined) + (mentioned - on);
  }

  /** A list of tables has no name twice exactly when its parts have none and share none. */
  lemma {:induction false} DictionaryOfSum(a: seq<Table>, b: seq<Table>)
    ensures Dictionary(a + b) <==> Dictionary(a) && Dictionary(b) && Apart(a, b)
    decreases |b|
  {
    if b == [] {
      assert a + b == a;
    } else {
      var n := |b| - 1;
      DictionaryOfSum(a, b[..n]);
      assert (a + b)[..|a + b| - 1] == a + b[..n];
      assert b == b[..n] + [b[n]];
      NamesOfSum(b[..n], [b[n]]);
      NamesOfSum(a, b[..n]);
      FindIsName(a + b[..n], b[n].name);
      FindIsName(b[..n], b[n].name);
      assert Names([b[n]]) == {b[n].name};
    }
  }

  lemma DictionaryGrows(ts: seq<Table>, t: Table)
    ensures Dictionary(ts + [t]) <==> Dictionary(ts) && t.name !in Names(ts)
    ensures Names(ts + [t]) == Names(ts) + {t.name}
  {
    assert (ts + [t])[..|ts|] == ts;
    FindIsName(ts, t.name);
  }

  lemma {:induction false} TargetsDistinct(items: seq<Item>)
    ensures Dictionary(Targets(items))
            <==> Dictionary(BareTables(items)) && Dictionary(Targets(Ons(items)))
                 && Apart(BareTables(items), Targets(Ons(items)))
    decreases |items|
  {
    if items != [] {
      var n := |items| - 1;
      var it := items[n].target;
      TargetsDistinct(items[..n]);
      SplitLast(items);
      ItemNames(items[..n]);
      DictionaryGrows(Targets(items[..n]), it);
      if items[n].Bare? {
        DictionaryGrows(BareTables(items[..n]), it);
      } else {
        DictionaryGrows(Targets(Ons(items[..n])), it);
      }
    }
  }

  /**
   * The clause lists no table twice exactly when the join targets have distinct names
   * and no condition mentions a bare join table.
   */
  lemma ListsOnceIff(tablemap: seq<Table>, items: seq<Item>, left: bool)
    requires Dictionary(tablemap) && WellFormed(items) && ItemsAgree(items) && CrossPool(tablemap, items) != []
    ensures Dictionary(Listed(ClauseOf(tablemap, items, left)))
            <==> Dictionary(Targets(items)) && Apart(BareTables(items), Mentioned(Ons(items)))
  {
    var bare, on, toMerge := BareTables(items), Targets(Ons(items)), ToMerge(items);
    var excluded := SplitOf(tablemap, items).excluded;
    ListedInOrder(tablemap, items, left);
    DictionaryOfSum(excluded + toMerge, bare + on);
    DictionaryOfSum(excluded, toMerge);
    DictionaryOfSum(bare, on);
    TargetsDistinct(items);
    ToMergeIsDictionary(items);
    WithoutIsDictionary(tablemap, bare + on + toMerge);
    PoolNames(tablemap, items);
    ItemNames(items);
    NamesOfSum(bare, on);
  }

  /** There is no anchor exactly when every table of the query and of the conditions is itself joined. */
  lemma NoAnchorIff(tablemap: seq<Table>, items: seq<Item>)
    ensures CrossPool(tablemap, items) == []
            <==> Names(tablemap) <= Names(Targets(items)) && Names(Mentioned(Ons(items))) <= Names(Targets(Ons(items)))
  {
    PoolNames(tablemap, items);
    NoNames(CrossPool(tablemap, items));
    EmptyPool(Names(tablemap), Names(Mentioned(Ons(items))), Names(Targets(items)), Names(Targets(Ons(items))));
  }

  lemma NoNames(ts: seq<Table>)
    ensures ts == [] <==> Names(ts) == {}
  {
    if ts != [] {
      assert ts[0].name in Names(ts);
    }
  }

  // ----- Name conflicts that go unseen

  /** No name stands for two objects anywhere: in the query, among the targets or in a condition. */
  ghost predicate NoConflict(tablemap: seq<Table>, items: seq<Item>) {
    && ItemsAgree(items)
    && Agree(tablemap, Targets(items))
    && Agree(tablemap, Mentioned(Ons(items)))
    && Agree(Targets(items), Mentioned(Ons(items)))
  }

  lemma AgreeAt(a: seq<Table>, b: seq<Table>, x: Table, y: Table)
    requires Agree(a, b) && x in a && y in b && x.name == y.name
    ensures x == y
  {
    assert Fits(a, y);
  }

  lemma AgreeParts(a: seq<Table>, b: seq<Table>, c: seq<Table>, d: seq<Table>)
    requires Agree(a, b) && (forall t | t in c :: t in a) && forall t | t in d :: t in b
    ensures Agree(c, d)
  {
    forall t | t in d ensures Fits(c, t) {
      assert Fits(a, t);
    }
  }

  lemma {:induction false} OnTargets(items: seq<Item>)
    ensures forall t | t in Targets(Ons(items)) :: t in Targets(items)
    decreases |items|
  {
    if items != [] {
      OnTargets(items[..|items| - 1]);
      SplitLast(items);
    }
  }

  /** A mentioned table is merged, or a joined table has its name. */
  lemma MentionedOr(items: seq<Item>, y: Table) returns (z: Table)
    requires y in Mentioned(Ons(items))
    ensures (z == y && y in ToMerge(items)) || (z in Targets(Ons(items)) && z.name == y.name)
  {
    WithoutHas(Mentioned(Ons(items)), Targets(Ons(items)));
    match Find(Targets(Ons(items)), y.name)
    case None => z := y;
    case Some(t) => z := t;
  }

  lemma MapsHold(tablemap: seq<Table>, items: seq<Item>)
    requires Dictionary(tablemap) && WellFormed(items) && ItemsAgree(items)
    ensures forall t :: t in Keyed(Targets(items)) <==> t in Targets(items)
    ensures forall t | t in ToMerge(items) :: t in Mentioned(Ons(items))
    ensures Agree(tablemap, ToMerge(items)) ==>
              forall t :: t in Merged(tablemap, ToMerge(items)) <==> t in tablemap || t in ToMerge(items)
  {
    KeyedHolds(Targets(items));
    WithoutHas(Mentioned(Ons(items)), Targets(Ons(items)));
    ToMergeIsDictionary(items);
    if Agree(tablemap, ToMerge(items)) {
      MergedIsUnion(tablemap, ToMerge(items));
    }
  }

  lemma ConflictFree(tablemap: seq<Table>, items: seq<Item>)
    requires Dictionary(tablemap) && WellFormed(items) && NoConflict(tablemap, items)
    ensures NamesAgree(tablemap, items) && Agree(Targets(Ons(items)), Mentioned(Ons(items)))
  {
    MapsHold(tablemap, items);
    OnTargets(items);
    AgreeParts(tablemap, Mentioned(Ons(items)), tablemap, ToMerge(items));
    AgreeParts(Targets(items), Mentioned(Ons(items)), Targets(Ons(items)), Mentioned(Ons(items)));
    var whole, keyed := Merged(tablemap, ToMerge(items)), Keyed(Targets(items));
    forall y | y in keyed ensures Fits(whole, y) {
      forall x | x in whole && x.name == y.name ensures x == y {
        if x in tablemap {
          AgreeAt(tablemap, Targets(items), x, y);
        } else {
          AgreeAt(Targets(items), Mentioned(Ons(items)), y, x);
        }
      }
    }
  }

  lemma SeenTargets(tablemap: seq<Table>, items: seq<Item>, x: Table, y: Table)
    requires Dictionary(tablemap) && WellFormed(items) && NamesAgree(tablemap, items)
    requires (x in tablemap || x in ToMerge(items)) && y in Targets(items) && x.name == y.name
    ensures x == y
  {
    MapsHold(tablemap, items);
    AgreeAt(Merged(tablemap, ToMerge(items)), Keyed(Targets(items)), x, y);
  }

  lemma SeenMentioned(tablemap: seq<Table>, items: seq<Item>, x: Table, y: Table)
    requires Dictionary(tablemap) && WellFormed(items) && NamesAgree(tablemap, items)
    requires Agree(Targets(Ons(items)), Mentioned(Ons(items)))
    requires (x in tablemap || x in Targets(items)) && y in Mentioned(Ons(items)) && x.name == y.name
    ensures x == y
  {
    OnTargets(items);
    var z := MentionedOr(items, y);
    if z in Targets(Ons(items)) {
      AgreeAt(Targets(Ons(items)), Mentioned(Ons(items)), z, y);
      if x in tablemap {
        SeenTargets(tablemap, items, x, z);
      } else {
        AgreeAt(Targets(items), Targets(items), x, z);
      }
    } else if x in tablemap {
      AgreeAt(tablemap, ToMerge(items), x, y);
    } else {
      SeenTargets(tablemap, items, y, x);
    }
  }

  /** The code sees every conflict but those between a joined table and the tables that conditions
      mention under its name. */
  lemma NoConflictIff(tablemap: seq<Table>, items: seq<Item>)
    requires Dictionary(tablemap) && WellFormed(items)
    ensures NoConflict(tablemap, items)
            <==> NamesAgree(tablemap, items) && Agree(Targets(Ons(items)), Mentioned(Ons(items)))
  {
    if NoConflict(tablemap, items) {
      ConflictFree(tablemap, items);
    }
    if NamesAgree(tablemap, items) && Agree(Targets(Ons(items)), Mentioned(Ons(items))) {
      forall y | y in Targets(items) ensures Fits(tablemap, y) {
        forall x | x in tablemap && x.name == y.name ensures x == y {
          SeenTargets(tablemap, items, x, y);
        }
      }
      forall y | y in Mentioned(Ons(items)) ensures Fits(tablemap, y) && Fits(Targets(items), y) {
        forall x | (x in tablemap || x in Targets(items)) && x.name == y.name ensures x == y {
          SeenMentioned(tablemap, items, x, y);
        }
      }
    }
  }

  /** A condition may mention another object under the name of the joined table: the conflict goes unseen. */
  lemma JoinedNameConflictUnseen(joined: Table, other: Table, anchor: Table)
    requires joined.name == other.name != anchor.name && joined != other
    ensures
      var items := [On(joined, [other, anchor])];
      && !Agree(Targets(items), Mentioned(Ons(items)))
      && NamesAgree([anchor], items)
      && CrossPool([anchor], items) == [anchor]
  {
    var item := On(joined, [other, anchor]);
    OneCondition(item);
    MergedLeaves(joined, other, anchor);
    OtherDisagrees(joined, other, anchor);
    OneTable(joined, joined);
    OneTable(anchor, anchor);
    OneTable(anchor, joined);
    assert ToMerge([item]) == [anchor];
    assert ItemsAgree([item]);
  }

  lemma OtherDisagrees(joined: Table, other: Table, anchor: Table)
    requires joined.name == other.name && joined != other
    ensures !Agree([joined], [other, anchor])
  {
    assert other in [other, anchor] && !Fits([joined], other);
  }

  lemma OneTable(t: Table, u: Table)
    ensures Agree([t], [u]) <==> (t.name == u.name ==> t == u)
    ensures Keyed([t]) == [t] && Merged([t], [t]) == [t]
  {
    assert u in [u] && (Agree([t], [u]) <==> Fits([t], u));
    assert [t][..0] == [] && Find([t], t.name) == Some(t);
    assert Update([t], [t]) == Update([t], []) == [t];
    assert Find([], t.name) == None && Keyed([t]) == [] + [t];
  }

  lemma MergedLeaves(joined: Table, other: Table, anchor: Table)
    requires joined.name == other.name != anchor.name
    ensures Without([other, anchor], [joined]) == [anchor]
    ensures Without([anchor], [] + [joined] + [anchor]) == []
  {
    assert [other, anchor][..1] == [other] && [other][..0] == [] && [anchor][..0] == [];
    assert Without([other], [joined]) == [];
    assert [] + [joined] + [anchor] == [joined, anchor];
    assert Find([joined, anchor], anchor.name) == Some(anchor);
  }

  lemma OneCondition(item: Item)
    requires item.On?
    ensures Ons([item]) == [item] && BareTables([item]) == [] && Targets([item]) == [item.target]
    ensures Mentioned([item]) == item.mentioned && ConditionsAgree([item])
  {
    assert [item][..0] == [];
    NothingMentioned(item.mentioned);
  }

  lemma NothingMentioned(d: seq<Table>)
    ensures Mentioned([]) == [] && Merged(Mentioned([]), d) == d && Agree(Mentioned([]), d)
  {
    UpdateOfNothing(d);
  }

  lemma UpdateOfNothing(d: seq<Table>)
    ensures Merged([], d) == d
  {
  }

  // ----- The clause and its errors, item by item

  ghost predicate IsTarget(items: seq<Item>, t: Table) { exists i :: 0 <= i < |items| && items[i].target == t }

  ghost predicate IsMentioned(items: seq<Item>, t: Table) {
    exists i :: 0 <= i < |items| && items[i].On? && t in items[i].mentioned
  }

  /** A table with a condition has the name. */
  ghost predicate JoinedOnName(items: seq<Item>, n: string) {
    exists i :: 0 <= i < |items| && items[i].On? && items[i].target.name == n
  }

  ghost predicate Uses(tablemap: seq<Table>, items: seq<Item>, n: string) {
    exists t: Table :: t.name == n && (t in tablemap || IsTarget(items, t) || IsMentioned(items, t))
  }

  ghost predicate Lists(c: Clause, n: string) {
    || (exists t :: t in c.sources && t.name == n)
    || exists i :: 0 <= i < |c.joins| && c.joins[i].target.name == n
  }

  /** Two different tables of one name: two targets, two tables that conditions mention, or a table of the query
      and a target; or one that conditions mention, no table with a condition having its name, and a table of
      the query or a target. */
  ghost predicate SeesConflict(tablemap: seq<Table>, items: seq<Item>) {
    exists x, y :: Clash(tablemap, items, x, y)
  }

  ghost predicate Clash(tablemap: seq<Table>, items: seq<Item>, x: Table, y: Table) {
    Homonyms(x, y)
    && ((IsTarget(items, x) && IsTarget(items, y))
        || (IsMentioned(items, x) && IsMentioned(items, y))
        || (x in tablemap && IsTarget(items, y))
        || ((x in tablemap || IsTarget(items, x)) && IsMentioned(items, y) && !JoinedOnName(items, y.name)))
  }

  ghost predicate Homonyms(x: Table, y: Table) { x.name == y.name && x != y }

  /** Every table of the query is a target, and every other one mentioned is joined with a condition. */
  ghost predicate AllJoined(tablemap: seq<Table>, items: seq<Item>) {
    && (forall t | t in tablemap :: exists u :: IsTarget(items, u) && u.name == t.name)
    && forall t | IsMentioned(items, t) :: JoinedOnName(items, t.name)
  }

  lemma TargetsAre(items: seq<Item>)
    ensures forall t :: t in Targets(items) <==> IsTarget(items, t)
  {
    forall t ensures t in Targets(items) <==> IsTarget(items, t) {
      if IsTarget(items, t) {
        var i :| 0 <= i < |items| && items[i].target == t;
        assert Targets(items)[i] == t;
      }
    }
  }

  lemma {:induction false} OnsAre(items: seq<Item>)
    ensures forall it :: it in Ons(items) <==> it in items && it.On?
    decreases |items|
  {
    if items != [] {
      OnsAre(items[..|items| - 1]);
      assert items == items[..|items| - 1] + [items[|items| - 1]];
    }
  }

  lemma OnNames(items: seq<Item>, n: string)
    ensures Find(Targets(Ons(items)), n).Some? <==> JoinedOnName(items, n)
  {
    OnsAre(items);
    TargetsAre(Ons(items));
    if Find(Targets(Ons(items)), n).Some? {
      var t := Find(Targets(Ons(items)), n).value;
      assert IsTarget(Ons(items), t);
      var i :| 0 <= i < |Ons(items)| && Ons(items)[i].target == t;
      assert Ons(items)[i] in items;
    }
    if JoinedOnName(items, n) {
      var i :| 0 <= i < |items| && items[i].On? && items[i].target.name == n;
      assert items[i] in Ons(items);
      var j :| 0 <= j < |Ons(items)| && Ons(items)[j] == items[i];
      assert Targets(Ons(items))[j] == items[i].target;
      assert Targets(Ons(items))[j] in Targets(Ons(items));
    }
  }

  lemma MentionedOfOns(items: seq<Item>)
    ensures forall t :: IsMentioned(Ons(items), t) <==> IsMentioned(items, t)
  {
    OnsAre(items);
    forall t ensures IsMentioned(Ons(items), t) <==> IsMentioned(items, t) {
      if IsMentioned(Ons(items), t) {
        var i :| 0 <= i < |Ons(items)| && Ons(items)[i].On? && t in Ons(items)[i].mentioned;
        assert Ons(items)[i] in items;
      }
      if IsMentioned(items, t) {
        var i :| 0 <= i < |items| && items[i].On? && t in items[i].mentioned;
        assert items[i] in Ons(items);
      }
    }
  }

  lemma LastMentions(ons: seq<Item>, t: Table)
    requires ons != [] && ons[|ons| - 1].On?
    ensures IsMentioned(ons, t) <==> IsMentioned(ons[..|ons| - 1], t) || t in ons[|ons| - 1].mentioned
  {
    var n := |ons| - 1;
    if IsMentioned(ons, t) {
      var i :| 0 <= i < |ons| && ons[i].On? && t in ons[i].mentioned;
      assert i < n ==> ons[..n][i] == ons[i];
    }
    if IsMentioned(ons[..n], t) {
      var i :| 0 <= i < n && ons[..n][i].On? && t in ons[..n][i].mentioned;
      assert ons[..n][i] == ons[i];
    }
  }

  /** Conditions agree exactly when no two of the tables they mention share a name. */
  lemma {:induction false} ConditionsMean(ons: seq<Item>)
    requires forall i | 0 <= i < |ons| :: ons[i].On? && Dictionary(ons[i].mentioned)
    ensures ConditionsAgree(ons) <==> NoHomonyms(ons)
    ensures ConditionsAgree(ons) ==> forall t :: t in Mentioned(ons) <==> IsMentioned(ons, t)
    decreases |ons|
  {
    if ons != [] {
      var n := |ons| - 1;
      var most, last := ons[..n], ons[n];
      ConditionsMean(most);
      forall t ensures IsMentioned(ons, t) <==> IsMentioned(most, t) || t in last.mentioned {
        LastMentions(ons, t);
      }
      OneMoreCondition(most, last, ons);
    }
  }

  /** No two of the tables that the conditions mention share a name. */
  ghost predicate NoHomonyms(ons: seq<Item>) {
    forall x, y | IsMentioned(ons, x) && IsMentioned(ons, y) :: !Homonyms(x, y)
  }

  lemma OneMoreCondition(most: seq<Item>, last: Item, ons: seq<Item>)
    requires last.On? && Dictionary(last.mentioned)
    requires forall i | 0 <= i < |most| :: most[i].On? && Dictionary(most[i].mentioned)
    requires ons == most + [last]
    requires ConditionsAgree(most) <==> NoHomonyms(most)
    requires ConditionsAgree(most) ==> forall t :: t in Mentioned(most) <==> IsMentioned(most, t)
    requires forall t :: IsMentioned(ons, t) <==> IsMentioned(most, t) || t in last.mentioned
    ensures ConditionsAgree(ons) <==> NoHomonyms(ons)
    ensures ConditionsAgree(ons) ==> forall t :: t in Mentioned(ons) <==> IsMentioned(ons, t)
  {
    LastCondition(most, last, ons);
    if ConditionsAgree(ons) {
      MentionedIsDictionary(most);
      MergedIsUnion(Mentioned(most), last.mentioned);
      AgreementReaches(most, last, ons);
    }
    if NoHomonyms(ons) {
      assert NoHomonyms(most);
      forall x, y | x in Mentioned(most) && y in last.mentioned ensures !Homonyms(x, y) {
        assert IsMentioned(ons, x) && IsMentioned(ons, y);
      }
      AgreeMeans(Mentioned(most), last.mentioned);
    }
  }

  lemma LastCondition(most: seq<Item>, last: Item, ons: seq<Item>)
    requires last.On? && (forall i | 0 <= i < |most| :: most[i].On?) && ons == most + [last]
    ensures ConditionsAgree(ons) <==> ConditionsAgree(most) && Agree(Mentioned(most), last.mentioned)
    ensures Mentioned(ons) == Merged(Mentioned(most), last.mentioned)
  {
    assert ons[..|ons| - 1] == most && ons[|ons| - 1] == last;
  }

  lemma AgreementReaches(most: seq<Item>, last: Item, ons: seq<Item>)
    requires last.On? && (forall i | 0 <= i < |most| :: most[i].On?)
    requires Dictionary(last.mentioned) && NoHomonyms(most) && Agree(Mentioned(most), last.mentioned)
    requires forall t :: t in Mentioned(most) <==> IsMentioned(most, t)
    requires forall t :: IsMentioned(ons, t) <==> IsMentioned(most, t) || t in last.mentioned
    ensures NoHomonyms(ons)
  {
    OneObjectAName(last.mentioned);
    AgreeMeans(Mentioned(most), last.mentioned);
    forall x, y | IsMentioned(ons, x) && IsMentioned(ons, y) ensures !Homonyms(x, y) {
      PairApart(Mentioned(most), last.mentioned, x, y);
    }
  }

  lemma PairApart(a: seq<Table>, b: seq<Table>, x: Table, y: Table)
    requires x in a && y in a ==> !Homonyms(x, y)
    requires x in b && y in b ==> !Homonyms(x, y)
    requires forall u, v | u in a && v in b :: !Homonyms(u, v)
    requires (x in a || x in b) && (y in a || y in b)
    ensures !Homonyms(x, y)
  {
    assert Homonyms(x, y) <==> Homonyms(y, x);
  }

  lemma AgreeMeans(a: seq<Table>, b: seq<Table>)
    ensures Agree(a, b) <==> forall x, y | x in a && y in b :: !Homonyms(x, y)
  {
    ConflictIff(a, b);
    if !Agree(a, b) {
      var x, y :| x in a && y in b && x.name == y.name && x != y;
      assert Homonyms(x, y);
    }
  }

  lemma OneObjectAName(d: seq<Table>)
    requires Dictionary(d)
    ensures forall x, y | x in d && y in d :: !Homonyms(x, y)
  {
    forall x, y | x in d && y in d ensures !Homonyms(x, y) {
      FindInDictionary(d, x);
      FindInDictionary(d, y);
    }
  }

  /** The tables still merged into the map: those mentioned under no name joined with a condition. */
  lemma ToMergeIs(items: seq<Item>)
    requires WellFormed(items) && ConditionsAgree(Ons(items))
    ensures forall t :: t in ToMerge(items) <==> IsMentioned(items, t) && !JoinedOnName(items, t.name)
  {
    OnsWellFormed(items);
    ConditionsMean(Ons(items));
    MentionedOfOns(items);
    WithoutHas(Mentioned(Ons(items)), Targets(Ons(items)));
    forall t ensures t in ToMerge(items) <==> IsMentioned(items, t) && !JoinedOnName(items, t.name) {
      OnNames(items, t.name);
    }
  }

  lemma ItemsAgreeMeans(items: seq<Item>)
    requires WellFormed(items)
    ensures ItemsAgree(items) <==>
            && (forall x, y | IsTarget(items, x) && IsTarget(items, y) :: !Homonyms(x, y))
            && (forall x, y | IsMentioned(items, x) && IsMentioned(items, y) :: !Homonyms(x, y))
  {
    TargetsAre(items);
    AgreeMeans(Targets(items), Targets(items));
    OnsWellFormed(items);
    ConditionsMean(Ons(items));
    MentionedOfOns(items);
  }

  /** No conflict is seen exactly when the maps the code builds agree. */
  lemma NamesAgreeMeans(tablemap: seq<Table>, items: seq<Item>)
    requires Dictionary(tablemap) && WellFormed(items)
    ensures NamesAgree(tablemap, items) <==> !SeesConflict(tablemap, items)
  {
    ItemsAgreeMeans(items);
    if ItemsAgree(items) {
      ToMergeIs(items);
      TargetsAre(items);
      MapsHold(tablemap, items);
      AgreeMeans(tablemap, ToMerge(items));
      AgreeMeans(Merged(tablemap, ToMerge(items)), Keyed(Targets(items)));
      WholeAgrees(tablemap, items);
    } else {
      NotSeenBefore(tablemap, items);
    }
  }

  lemma NotSeenBefore(tablemap: seq<Table>, items: seq<Item>)
    requires WellFormed(items) && !ItemsAgree(items)
    ensures SeesConflict(tablemap, items)
  {
    ItemsAgreeMeans(items);
    var x, y :| Homonyms(x, y)
             && ((IsTarget(items, x) && IsTarget(items, y)) || (IsMentioned(items, x) && IsMentioned(items, y)));
    assert Clash(tablemap, items, x, y);
  }

  lemma WholeAgrees(tablemap: seq<Table>, items: seq<Item>)
    requires Dictionary(tablemap) && WellFormed(items) && ItemsAgree(items)
    ensures NamesAgree(tablemap, items) <==> !SeesConflict(tablemap, items)
  {
    ItemsAgreeMeans(items);
    ToMergeIs(items);
    TargetsAre(items);
    MapsHold(tablemap, items);
    AgreeMeans(tablemap, ToMerge(items));
    AgreeMeans(Merged(tablemap, ToMerge(items)), Keyed(Targets(items)));
    if !NamesAgree(tablemap, items) {
      if !Agree(tablemap, ToMerge(items)) {
        var x, y :| x in tablemap && y in ToMerge(items) && Homonyms(x, y);
        assert Clash(tablemap, items, x, y);
      } else {
        var x, y :| x in Merged(tablemap, ToMerge(items)) && y in Keyed(Targets(items)) && Homonyms(x, y);
        assert Homonyms(y, x);
        assert Clash(tablemap, items, x, y) || Clash(tablemap, items, y, x);
      }
    }
    if NamesAgree(tablemap, items) && SeesConflict(tablemap, items) {
      var x, y :| Clash(tablemap, items, x, y);
      assert Homonyms(y, x);
      assert false;
    }
  }

  lemma NamesAre(tablemap: seq<Table>, items: seq<Item>, n: string)
    requires WellFormed(items) && ConditionsAgree(Ons(items))
    ensures n in Names(Targets(items)) <==> exists t :: IsTarget(items, t) && t.name == n
    ensures n in Names(Mentioned(Ons(items))) <==> exists t :: IsMentioned(items, t) && t.name == n
    ensures n in Names(Targets(Ons(items))) <==> JoinedOnName(items, n)
  {
    TargetsAre(items);
    OnsWellFormed(items);
    ConditionsMean(Ons(items));
    MentionedOfOns(items);
    OnNames(items, n);
    FindIsName(Targets(Ons(items)), n);
  }

  lemma ListsIsListed(c: Clause, n: string)
    ensures Lists(c, n) <==> n in Names(Listed(c))
  {
    var all := Listed(c);
    if Lists(c, n) {
      if i :| 0 <= i < |c.joins| && c.joins[i].target.name == n {
        assert all[|c.sources| + i] == c.joins[i].target;
        assert all[|c.sources| + i] in all;
      } else {
        var t :| t in c.sources && t.name == n;
        assert t in all;
      }
    }
    if n in Names(all) {
      var k :| 0 <= k < |all| && all[k].name == n;
      if k < |c.sources| {
        assert all[k] in c.sources;
      } else {
        assert c.joins[k - |c.sources|].target == all[k];
      }
    }
  }

  lemma ClauseMeans(tablemap: seq<Table>, items: seq<Item>, left: bool)
    requires Dictionary(tablemap) && WellFormed(items)
    ensures NamesAgree(tablemap, items) <==> !SeesConflict(tablemap, items)
    ensures NamesAgree(tablemap, items) ==> (CrossPool(tablemap, items) == [] <==> AllJoined(tablemap, items))
    ensures NamesAgree(tablemap, items) && CrossPool(tablemap, items) != [] ==>
              forall n :: Lists(ClauseOf(tablemap, items, left), n) <==> Uses(tablemap, items, n)
  {
    NamesAgreeMeans(tablemap, items);
    if NamesAgree(tablemap, items) {
      AnchorMeans(tablemap, items);
      if CrossPool(tablemap, items) != [] {
        forall n ensures Lists(ClauseOf(tablemap, items, left), n) <==> Uses(tablemap, items, n) {
          ListsMeans(tablemap, items, left, n);
        }
      }
    }
  }

  lemma ListsMeans(tablemap: seq<Table>, items: seq<Item>, left: bool, n: string)
    requires WellFormed(items) && ConditionsAgree(Ons(items)) && CrossPool(tablemap, items) != []
    ensures Lists(ClauseOf(tablemap, items, left), n) <==> Uses(tablemap, items, n)
  {
    ListsIsListed(ClauseOf(tablemap, items, left), n);
    ListsTheUsedTables(tablemap, items, left);
    NamesAre(tablemap, items, n);
  }

  lemma AnchorMeans(tablemap: seq<Table>, items: seq<Item>)
    requires WellFormed(items) && ConditionsAgree(Ons(items))
    ensures CrossPool(tablemap, items) == [] <==> AllJoined(tablemap, items)
  {
    NoAnchorIff(tablemap, items);
    forall n
      ensures n in Names(Targets(items)) <==> exists t :: IsTarget(items, t) && t.name == n
      ensures n in Names(Mentioned(Ons(items))) <==> exists t :: IsMentioned(items, t) && t.name == n
      ensures n in Names(Targets(Ons(items))) <==> JoinedOnName(items, n)
    {
      NamesAre(tablemap, items, n);
    }
    forall t | t in tablemap ensures t.name in Names(tablemap) {
    }
  }
}
