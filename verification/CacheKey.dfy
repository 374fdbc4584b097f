/** The key under which a select is cached, before it is hashed. */
module CacheKey {
  import opened SqlLiterals

  datatype Param = Param(typeName: string, repr: string)

  const PREFIX := "pydal-select-cache-v2"

  /** A part in front of which its length stands. */
  function Part(v: string): string { Decimal(|v|) + ":" + v }

  function ParamsText(params: seq<Param>): string {
    if params == [] then "" else Part(params[0].typeName) + Part(params[0].repr) + ParamsText(params[1..])
  }

  function Suffix(rows: bool): string { if rows then "/rows" else "" }

  function Key(uri: string, sql: string, params: seq<Param>, rows: bool): string {
    if params == [] then uri + "/" + sql + Suffix(rows)
    else PREFIX + (Part(uri) + (Part(sql) + (Part(Decimal(|params|)) + (ParamsText(params) + Suffix(rows)))))
  }

  /** The parts of the parameters, appended one by one. */
  method AppendParams(head: string, params: seq<Param>) returns (key: string)
    ensures key == head + ParamsText(params)
  {
    key := head;
    for i := 0 to |params|
      invariant head + ParamsText(params) == key + ParamsText(params[i..])
    {
      assert params[i..][1..] == params[i + 1..];
      Regroup(key, Part(params[i].typeName), Part(params[i].repr), ParamsText(params[i + 1..]));
      key := key + Part(params[i].typeName);
      key := key + Part(params[i].repr);
    }
  }

  /** The string as `_select_cache_key` accumulates it. */
  method SelectCacheKey(uri: string, sql: string, params: seq<Param>, rows: bool) returns (key: string)
    ensures key == Key(uri, sql, params, rows)
  {
    if |params| == 0 {
      key := uri + "/" + sql;
    } else {
      key := PREFIX;
      key := key + Part(uri);
      key := key + Part(sql);
      key := key + Part(Decimal(|params|));
      key := AppendParams(key, params);
      Nest(PREFIX, Part(uri), Part(sql), Part(Decimal(|params|)), ParamsText(params), Suffix(rows));
    }
    if rows {
      key := key + "/rows";
    }
  }

  lemma Nest(a: string, b: string, c: string, d: string, e: string, f: string)
    ensures a + b + c + d + e + f == a + (b + (c + (d + (e + f))))
    ensures a + b + c + d + e + "" == a + b + c + d + e
  {
  }

  lemma Regroup(a: string, b: string, c: string, d: string)
    ensures a + (b + c + d) == a + b + c + d
  {
  }

  /** A part delimits itself: whatever follows, it can be taken off again. */
  lemma PartCancels(a: string, b: string, x: string, y: string)
    requires Part(a) + x == Part(b) + y
    ensures a == b && x == y
  {
    assert Part(a) + x == Decimal(|a|) + (":" + (a + x));
    assert Part(b) + y == Decimal(|b|) + (":" + (b + y));
    NatReadsBack(|a|, ":" + (a + x));
    NatReadsBack(|b|, ":" + (b + y));
    assert (":" + (a + x))[1..] == a + x && (":" + (b + y))[1..] == b + y;
    assert (a + x)[..|a|] == a && (b + y)[..|b|] == b && (a + x)[|a|..] == x && (b + y)[|b|..] == y;
  }

  lemma ParamCancels(p: Param, q: Param, x: string, y: string)
    requires Part(p.typeName) + (Part(p.repr) + x) == Part(q.typeName) + (Part(q.repr) + y)
    ensures p == q && x == y
  {
    PartCancels(p.typeName, q.typeName, Part(p.repr) + x, Part(q.repr) + y);
    PartCancels(p.repr, q.repr, x, y);
  }

  lemma ParamsUnfold(ps: seq<Param>, x: string)
    requires ps != []
    ensures ParamsText(ps) + x == Part(ps[0].typeName) + (Part(ps[0].repr) + (ParamsText(ps[1..]) + x))
  {
  }

  lemma {:induction false} ParamsCancel(ps: seq<Param>, qs: seq<Param>, x: string, y: string)
    requires |ps| == |qs| && ParamsText(ps) + x == ParamsText(qs) + y
    ensures ps == qs && x == y
    decreases |ps|
  {
    if ps == [] {
      assert ParamsText(ps) + x == x && ParamsText(qs) + y == y;
    } else {
      ParamsUnfold(ps, x);
      ParamsUnfold(qs, y);
      ParamCancels(ps[0], qs[0], ParamsText(ps[1..]) + x, ParamsText(qs[1..]) + y);
      ParamsCancel(ps[1..], qs[1..], x, y);
      assert ps == [ps[0]] + ps[1..] && qs == [qs[0]] + qs[1..];
    }
  }

  /** Of parameterised statements, equal keys mean equal URI, text, parameters and rows flag. */
  lemma KeyIsInjective(uri: string, sql: string, params: seq<Param>, rows: bool,
                       uri': string, sql': string, params': seq<Param>, rows': bool)
    requires params != [] && params' != []
    requires Key(uri, sql, params, rows) == Key(uri', sql', params', rows')
    ensures uri == uri' && sql == sql' && params == params' && rows == rows'
  {
    var tail, tail' := ParamsText(params) + Suffix(rows), ParamsText(params') + Suffix(rows');
    var count, count' := Part(Decimal(|params|)) + tail, Part(Decimal(|params'|)) + tail';
    assert Part(uri) + (Part(sql) + count) == Key(uri, sql, params, rows)[|PREFIX|..]
        == Part(uri') + (Part(sql') + count');
    PartCancels(uri, uri', Part(sql) + count, Part(sql') + count');
    PartCancels(sql, sql', count, count');
    PartCancels(Decimal(|params|), Decimal(|params'|), tail, tail');
    DecimalValue(|params|);
    DecimalValue(|params'|);
    ParamsCancel(params, params', Suffix(rows), Suffix(rows'));
  }

  /** A key spelled out, for one parameter and for none. */
  lemma KeyOfOne(uri: string, sql: string, p: Param, rows: bool)
    ensures Key(uri, sql, [p], rows)
            == "pydal-select-cache-v2" + ((Decimal(|uri|) + ":" + uri) + ((Decimal(|sql|) + ":" + sql) + ("1:1"
               + (((Decimal(|p.typeName|) + ":" + p.typeName) + (Decimal(|p.repr|) + ":" + p.repr))
               + (if rows then "/rows" else "")))))
    ensures Key(uri, sql, [], rows) == uri + "/" + sql + (if rows then "/rows" else "")
  {
    OneParam(p);
    assert Part(Decimal(|[p]|)) == "1:1" by {
      assert |[p]| == 1 && Decimal(1) == "1";
    }
  }

  lemma OneParam(p: Param)
    ensures ParamsText([p]) == (Decimal(|p.typeName|) + ":" + p.typeName) + (Decimal(|p.repr|) + ":" + p.repr)
  {
    assert [p][1..] == [];
    assert Part(p.typeName) + Part(p.repr) + "" == Part(p.typeName) + Part(p.repr);
  }

  /** Without parameters the parts run into each other. */
  lemma BareKeysCollide()
    ensures Key("a/b", "c", [], false) == Key("a", "b/c", [], false)
    ensures Key("a", "b", [], true) == Key("a", "b/rows", [], false)
  {
    assert "a/b" + "/" + "c" + "" == "a" + "/" + "b/c" + "";
    assert "a" + "/" + "b" + "/rows" == "a" + "/" + "b/rows" + "";
  }

  /** The text behind the URI. */
  function Tail(sql: string, rows: bool): string { "/" + sql + Suffix(rows) }

  lemma BareKeyText(uri: string, sql: string, rows: bool)
    ensures Key(uri, sql, [], rows) == uri + Tail(sql, rows)
  {
  }

  lemma SumsEqualIff(a: string, x: string, b: string, y: string)
    requires |a| <= |b|
    ensures a + x == b + y <==> a <= b && x == b[|a|..] + y
  {
    if a + x == b + y {
      assert b[..|a|] == (b + y)[..|a|] == (a + x)[..|a|] == a;
      assert x == (a + x)[|a|..] == (b + y)[|a|..] == b[|a|..] + y;
    }
    if a <= b {
      assert b == a + b[|a|..];
    }
  }

  /** Two such keys are equal exactly when the longer URI is the other followed by a beginning of what
      the shorter one's select adds, and the other select adds the rest. */
  lemma BareKeysEqualIff(uri: string, sql: string, rows: bool, uri': string, sql': string, rows': bool)
    requires |uri| <= |uri'|
    ensures Key(uri, sql, [], rows) == Key(uri', sql', [], rows')
            <==> uri <= uri' && "/" + sql + Suffix(rows) == uri'[|uri|..] + ("/" + sql' + Suffix(rows'))
  {
    BareKeyText(uri, sql, rows);
    BareKeyText(uri', sql', rows');
    SumsEqualIff(uri, Tail(sql, rows), uri', Tail(sql', rows'));
  }

  lemma BareTexts(sql: string, rows: bool, sql': string, rows': bool)
    ensures sql + Suffix(rows) == sql' + Suffix(rows') <==>
            || (sql == sql' && rows == rows')
            || (rows && !rows' && sql' == sql + "/rows")
            || (!rows && rows' && sql == sql' + "/rows")
  {
    assert sql + "" == sql && sql' + "" == sql';
    assert (sql + Suffix(rows))[..|sql|] == sql && (sql' + Suffix(rows'))[..|sql'|] == sql';
  }

  /** On one URI they are equal only for the same select, unless one text is the other followed by the
      mark of the rows flag. */
  lemma BareKeysOfOneUri(uri: string, sql: string, rows: bool, sql': string, rows': bool)
    ensures Key(uri, sql, [], rows) == Key(uri, sql', [], rows') <==>
            || (sql == sql' && rows == rows')
            || (rows && !rows' && sql' == sql + "/rows")
            || (!rows && rows' && sql == sql' + "/rows")
  {
    BareKeyText(uri, sql, rows);
    BareKeyText(uri, sql', rows');
    SumsEqualIff(uri, Tail(sql, rows), uri, Tail(sql', rows'));
    assert uri[|uri|..] + Tail(sql', rows') == Tail(sql', rows');
    BareTexts(sql, rows, sql', rows');
    TailsEqualIff(sql, rows, sql', rows');
  }

  lemma TailsEqualIff(sql: string, rows: bool, sql': string, rows': bool)
    ensures Tail(sql, rows) == Tail(sql', rows') <==> sql + Suffix(rows) == sql' + Suffix(rows')
  {
    assert Tail(sql, rows)[1..] == sql + Suffix(rows) && Tail(sql', rows')[1..] == sql' + Suffix(rows');
  }

  // ----- Keys with parameters beside keys without

  /** What a key with parameters has behind the prefix. */
  function Parts(uri: string, sql: string, params: seq<Param>, rows: bool): string {
    Part(uri) + (Part(sql) + (Part(Decimal(|params|)) + (ParamsText(params) + Suffix(rows))))
  }

  /** A slash after some first characters of the prefix, or after all of it, is in no parameterised key. */
  lemma SlashBehindPrefix(uri: string, x: string, parts: string)
    requires uri <= PREFIX && parts != "" && IsDigit(parts[0])
    ensures uri + ("/" + x) != PREFIX + parts
  {
    assert (uri + ("/" + x))[|uri|] == '/';
    assert (PREFIX + parts)[|uri|] == if |uri| < |PREFIX| then PREFIX[|uri|] else parts[0];
  }

  /** A key with parameters is that of a select without exactly when the latter's URI goes on from the
      prefix with a beginning of the parts, and its select adds the rest. */
  lemma MixedKeysEqualIff(uri: string, sql: string, params: seq<Param>, rows: bool, uri': string, sql': string,
                          rows': bool)
    requires params != []
    ensures Key(uri, sql, params, rows) == Key(uri', sql', [], rows')
            <==> PREFIX <= uri' && Parts(uri, sql, params, rows) == uri'[|PREFIX|..] + ("/" + sql' + Suffix(rows'))
  {
    var parts, tail := Parts(uri, sql, params, rows), Tail(sql', rows');
    BareKeyText(uri', sql', rows');
    assert tail == "/" + (sql' + Suffix(rows'));
    assert parts[0] == Decimal(|uri|)[0];
    if |uri'| < |PREFIX| {
      SumsEqualIff(uri', tail, PREFIX, parts);
      if uri' <= PREFIX {
        SlashBehindPrefix(uri', sql' + Suffix(rows'), parts);
      }
    } else {
      SumsEqualIff(PREFIX, parts, uri', tail);
    }
  }

  lemma ShiftSlash(a: string, b: string, x: string, y: string, z: string, w: string)
    ensures a + b + (x + (y + (z + w))) == a + (b + (x + (y + z)) + w)
  {
  }

  /** They do meet: the URI can be made to look like the beginning of a key. */
  lemma MixedKeysCollide(sql: string, params: seq<Param>, rows: bool)
    requires params != []
    ensures exists uri', sql' :: Key("/", sql, params, rows) == Key(uri', sql', [], rows)
  {
    var count := Part(Decimal(|params|));
    var uri', sql' := PREFIX + "1:", Part(sql) + (count + ParamsText(params));
    assert Part("/") == "1:" + "/" by {
      assert Decimal(1) == "1";
    }
    ShiftSlash("1:", "/", Part(sql), count, ParamsText(params), Suffix(rows));
    MixedKeysEqualIff("/", sql, params, rows, uri', sql', rows);
    assert Key("/", sql, params, rows) == Key(uri', sql', [], rows);
  }
}
