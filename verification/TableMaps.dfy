/** Maps from a table name to a table object, as ordered dictionaries, and how they are merged. */
module TableMaps {
  import opened Options

  datatype Error = NameConflict | NoAnchor

  datatype Result<+T> = Ok(value: T) | Err(error: Error)

  /** A table object: two objects can carry the same name. */
  datatype Table = Table(name: string, object: nat)

  /** A map is the list of its entries in insertion order. */
  function Find(d: seq<Table>, name: string): (r: Option<Table>)
    ensures r.Some? ==> r.value in d && r.value.name == name
    ensures r.None? <==> forall t | t in d :: t.name != name
  {
    if d == [] then None
    else if d[|d| - 1].name == name then Some(d[|d| - 1])
    else Find(d[..|d| - 1], name)
  }

  /** No two entries have the same name. */
  ghost predicate Dictionary(d: seq<Table>) {
    d == [] || (Find(d[..|d| - 1], d[|d| - 1].name).None? && Dictionary(d[..|d| - 1]))
  }

  /** No name stands for two different objects. */
  ghost predicate Agree(a: seq<Table>, b: seq<Table>) {
    forall t {:trigger Fits(a, t)} | t in b :: Fits(a, t)
  }

  ghost predicate Fits(d: seq<Table>, t: Table) {
    forall x | x in d :: x.name == t.name ==> x == t
  }

  lemma AgreeIsSymmetric(a: seq<Table>, b: seq<Table>)
    ensures Agree(a, b) <==> Agree(b, a)
  {
    if Agree(a, b) {
      forall t | t in a ensures Fits(b, t) {
        assert forall x | x in b :: Fits(a, x);
      }
    }
    if Agree(b, a) {
      forall t | t in b ensures Fits(a, t) {
        assert forall x | x in a :: Fits(b, x);
      }
    }
  }

  /** `big.update(small)` for maps that agree. */
  function Update(big: seq<Table>, small: seq<Table>): seq<Table> {
    if small == [] then big
    else
      var below := Update(big, small[..|small| - 1]);
      var t := small[|small| - 1];
      if Find(big, t.name).Some? then below else below + [t]
  }

  function Merged(a: seq<Table>, b: seq<Table>): seq<Table> {
    if |a| > |b| then Update(a, b) else Update(b, a)
  }

  lemma {:induction false} UpdateIsUnion(big: seq<Table>, small: seq<Table>)
    requires Dictionary(big) && Dictionary(small) && Agree(big, small)
    ensures Dictionary(Update(big, small))
    ensures forall t :: t in Update(big, small) <==> t in big || t in small
    decreases |small|
  {
    if small != [] {
      var n := |small| - 1;
      var done, t := small[..n], small[n];
      assert small == done + [t];
      AgreeBegins(big, done, t);
      UpdateIsUnion(big, done);
      UpdateOneMore(big, Update(big, done), done, t, Update(big, small));
      forall x ensures x in small <==> x in done || x == t {
      }
    }
  }

  lemma AgreeBegins(big: seq<Table>, done: seq<Table>, t: Table)
    requires Agree(big, done + [t])
    ensures Agree(big, done) && Fits(big, t)
  {
    assert t in done + [t];
    forall x | x in done ensures Fits(big, x) {
      assert x in done + [t];
    }
  }

  lemma UpdateOneMore(big: seq<Table>, below: seq<Table>, done: seq<Table>, t: Table, r: seq<Table>)
    requires Dictionary(below) && Fits(big, t) && Find(done, t.name).None?
    requires forall x :: x in below <==> x in big || x in done
    requires r == if Find(big, t.name).Some? then below else below + [t]
    ensures Dictionary(r)
    ensures forall x :: x in r <==> x in big || x in done || x == t
  {
    match Find(big, t.name)
    case Some(x) =>
      assert x == t;
    case None =>
      assert (below + [t])[..|below|] == below;
  }

  lemma MergedIsUnion(a: seq<Table>, b: seq<Table>)
    requires Dictionary(a) && Dictionary(b) && Agree(a, b)
    ensures Dictionary(Merged(a, b))
    ensures forall t :: t in Merged(a, b) <==> t in a || t in b
  {
    if |a| > |b| {
      UpdateIsUnion(a, b);
    } else {
      AgreeIsSymmetric(a, b);
      UpdateIsUnion(b, a);
    }
  }

  lemma {:induction false} FindInDictionary(d: seq<Table>, t: Table)
    requires Dictionary(d) && t in d
    ensures Find(d, t.name) == Some(t)
    decreases |d|
  {
    if t != d[|d| - 1] {
      FindInDictionary(d[..|d| - 1], t);
    }
  }

  lemma FitsIfFound(d: seq<Table>, t: Table)
    requires Dictionary(d)
    ensures Fits(d, t) <==> Find(d, t.name) == None || Find(d, t.name) == Some(t)
  {
    forall x | x in d && x.name == t.name ensures Find(d, t.name) == Some(x) {
      FindInDictionary(d, x);
    }
  }

  lemma AgreeGrows(d: seq<Table>, ts: seq<Table>, i: nat)
    requires i < |ts| && Agree(d, ts[..i])
    ensures Agree(d, ts[..i + 1]) <==> Fits(d, ts[i])
  {
    assert ts[..i + 1] == ts[..i] + [ts[i]];
    assert ts[i] in ts[..i + 1];
  }

  lemma UpdateGrows(m: seq<Table>, other: seq<Table>, i: nat)
    requires i < |other|
    ensures Update(m, other[..i + 1])
            == Update(m, other[..i]) + if Find(m, other[i].name).None? then [other[i]] else []
  {
    assert other[..i + 1][..i] == other[..i];
  }

  lemma ConflictIff(a: seq<Table>, b: seq<Table>)
    ensures !Agree(a, b) <==> exists x, y :: x in a && y in b && x.name == y.name && x != y
  {
    if !Agree(a, b) {
      var y :| y in b && !Fits(a, y);
      var x :| x in a && x.name == y.name && x != y;
    }
    if x, y :| x in a && y in b && x.name == y.name && x != y {
      assert !Fits(a, y);
    }
  }

  lemma MergedMeans(a: seq<Table>, b: seq<Table>)
    requires Dictionary(a) && Dictionary(b)
    ensures Agree(a, b) ==> forall t :: t in Merged(a, b) <==> t in a || t in b
    ensures if |a| > |b| then a <= Merged(a, b) else b <= Merged(a, b)
  {
    UpdateBegins(a, b);
    UpdateBegins(b, a);
    if Agree(a, b) {
      MergedIsUnion(a, b);
    }
  }

  lemma {:induction false} UpdateBegins(big: seq<Table>, small: seq<Table>)
    ensures big <= Update(big, small)
    decreases |small|
  {
    if small != [] {
      UpdateBegins(big, small[..|small| - 1]);
    }
  }

  method MergeTablemaps(ret: seq<Table>, item: seq<Table>) returns (r: Result<seq<Table>>)
    requires Dictionary(ret) && Dictionary(item)
    ensures r == Err(NameConflict) <==> exists x, y :: x in ret && y in item && x.name == y.name && x != y
    ensures r.Err? ==> r.error == NameConflict
    ensures r.Ok? ==> forall t :: t in r.value <==> t in ret || t in item
    ensures r.Ok? ==> if |ret| > |item| then ret <= r.value else item <= r.value
    ensures r == if Agree(ret, item) then Ok(Merged(ret, item)) else Err(NameConflict)
  {
    ConflictIff(ret, item);
    MergedMeans(ret, item);
    var big, small := if |ret| > |item| then ret else item, if |ret| > |item| then item else ret;
    AgreeIsSymmetric(ret, item);
    for i := 0 to |small|
      invariant Agree(big, small[..i])
    {
      var held := Find(big, small[i].name);
      if held.Some? && held.value != small[i] {
        assert !Fits(big, small[i]);
        return Err(NameConflict);
      }
      FitsIfFound(big, small[i]);
      AgreeGrows(big, small, i);
    }
    assert small[..|small|] == small;
    var union := big;
    for i := 0 to |small|
      invariant union == Update(big, small[..i])
    {
      UpdateGrows(big, small, i);
      if Find(big, small[i].name).None? {
        union := union + [small[i]];
      }
    }
    assert small[..|small|] == small;
    return Ok(union);
  }
}
