/** Query documents of the MongoDB adapter: how a query tree expands to the document passed to
    `find`, and how `_not` pushes a negation through it.
  */
module MongoQuery {

  datatype Value = Null | Int(n: int) | Text(s: string)

  type Record = map<string, Value>

  datatype Ordering = Lt | Lte | Gt | Gte

  /** The tree of `Query` nodes; `Not` has no second operand. */
  datatype Query =
    | Eq(field: string, value: Value)
    | Ne(field: string, value: Value)
    | Ord(op: Ordering, field: string, value: Value)
    | Belongs(field: string, values: seq<Value>)
    | And(first: Query, second: Query)
    | Or(first: Query, second: Query)
    | Not(first: Query)

  datatype Body =
    | Literal(value: Value)                 // {f: v}
    | NotEqual(value: Value)                // {f: {$ne: v}}
    | Compared(op: Ordering, value: Value)  // {f: {$lt: v}} and its siblings
    | In(values: seq<Value>)                // {f: {$in: [..]}}
    | Negated(body: Body)                   // {f: {$not: ..}}

  datatype Doc = FieldDoc(field: string, body: Body) | AndDoc(left: Doc, right: Doc) | OrDoc(left: Doc, right: Doc)

  datatype Result<+T> = Ok(value: T) | Err

  // ----- Expansion, as the dialect does it

  function Expand(q: Query): Result<Doc>
    decreases q, 0
  {
    match q
    case Eq(f, v) => Ok(FieldDoc(f, Literal(v)))
    case Ne(f, v) => Ok(FieldDoc(f, NotEqual(v)))
    case Ord(op, f, v) => if v.Null? then Err else Ok(FieldDoc(f, Compared(op, v)))  // validate_second
    case Belongs(f, vs) => Ok(FieldDoc(f, In(vs)))
    case And(a, b) =>
      var left, right := Expand(a), Expand(b);
      if left.Ok? && right.Ok? then Ok(AndDoc(left.value, right.value)) else Err
    case Or(a, b) =>
      var left, right := Expand(a), Expand(b);
      if left.Ok? && right.Ok? then Ok(OrDoc(left.value, right.value)) else Err
    case Not(p) => Negate(p)
  }

  /** `_not`.  It looks at the expanded document first, and for an and/or document goes back to the
      two operands of the query node; a `Not` node has only one, and `_not(None)` raises. */
  function Negate(q: Query): Result<Doc>
    decreases q, 1
  {
    match Expand(q)
    case Err => Err
    case Ok(FieldDoc(f, NotEqual(v))) => Ok(FieldDoc(f, Literal(v)))
    case Ok(FieldDoc(f, Literal(v))) => Ok(FieldDoc(f, NotEqual(v)))
    case Ok(FieldDoc(f, body)) => Ok(FieldDoc(f, Negated(body)))
    case Ok(doc) =>
      if !(q.And? || q.Or?) then Err
      else
        var left, right := Negate(q.first), Negate(q.second);
        if left.Err? || right.Err? then Err
        else if doc.OrDoc? then Ok(AndDoc(left.value, right.value))
        else Ok(OrDoc(left.value, right.value))
  }

  /** `Query.__invert__` */
  function Invert(q: Query): Query {
    if q.Not? then q.first else Not(q)
  }

  // ----- What the server does with a document, and what the query means

  /** A missing field matches as null; `less` is the server's order, which never relates null to anything. */
  function Lookup(r: Record, f: string): Value {
    if f in r then r[f] else Null
  }

  ghost predicate Holds(less: (Value, Value) -> bool, op: Ordering, v: Value, w: Value) {
    match op
    case Lt => less(v, w)
    case Lte => less(v, w) || v == w
    case Gt => less(w, v)
    case Gte => less(w, v) || v == w
  }

  ghost predicate BodyMatches(less: (Value, Value) -> bool, body: Body, v: Value) {
    match body
    case Literal(w) => v == w
    case NotEqual(w) => v != w
    case Compared(op, w) => Holds(less, op, v, w)
    case In(ws) => v in ws
    case Negated(b) => !BodyMatches(less, b, v)
  }

  ghost predicate Matches(less: (Value, Value) -> bool, doc: Doc, r: Record) {
    match doc
    case FieldDoc(f, body) => BodyMatches(less, body, Lookup(r, f))
    case AndDoc(a, b) => Matches(less, a, r) && Matches(less, b, r)
    case OrDoc(a, b) => Matches(less, a, r) || Matches(less, b, r)
  }

  /** Two-valued meaning of a query tree. */
  ghost predicate Means(less: (Value, Value) -> bool, q: Query, r: Record) {
    match q
    case Eq(f, v) => Lookup(r, f) == v
    case Ne(f, v) => Lookup(r, f) != v
    case Ord(op, f, v) => Holds(less, op, Lookup(r, f), v)
    case Belongs(f, vs) => Lookup(r, f) in vs
    case And(a, b) => Means(less, a, r) && Means(less, b, r)
    case Or(a, b) => Means(less, a, r) || Means(less, b, r)
    case Not(p) => !Means(less, p, r)
  }

  // ----- Which queries expand at all

  ghost predicate NoNullOrdering(q: Query) {
    match q
    case Ord(_, _, v) => !v.Null?
    case And(a, b) => NoNullOrdering(a) && NoNullOrdering(b)
    case Or(a, b) => NoNullOrdering(a) && NoNullOrdering(b)
    case Not(p) => NoNullOrdering(p)
    case _ => true
  }

  /** A comparison, under any number of negations. */
  ghost predicate NegatedLeaf(q: Query) {
    match q
    case And(_, _) => false
    case Or(_, _) => false
    case Not(p) => NegatedLeaf(p)
    case _ => true
  }

  /** Every negation in `q` applies to a single comparison. */
  ghost predicate NegationsOnLeaves(q: Query) {
    match q
    case And(a, b) => NegationsOnLeaves(a) && NegationsOnLeaves(b)
    case Or(a, b) => NegationsOnLeaves(a) && NegationsOnLeaves(b)
    case Not(p) => NegatedLeaf(p)
    case _ => true
  }

  /** No negation beneath another negation applies to an and/or. */
  ghost predicate Supported(q: Query) {
    match q
    case And(a, b) => Supported(a) && Supported(b)
    case Or(a, b) => Supported(a) && Supported(b)
    case Not(p) => NegationsOnLeaves(p)
    case _ => true
  }

  lemma {:induction false} NegateSucceedsIff(q: Query)
    ensures Negate(q).Ok? <==> NoNullOrdering(q) && NegationsOnLeaves(q)
    ensures Negate(q).Ok? ==> Expand(q).Ok?
    ensures Negate(q).Ok? ==> (Negate(q).value.FieldDoc? <==> NegatedLeaf(q))
    ensures Expand(q).Ok? ==> (Expand(q).value.FieldDoc? <==> NegatedLeaf(q))
    ensures Expand(q).Ok? <==> NoNullOrdering(q) && Supported(q)
  {
    match q
    case And(a, b) => NegateSucceedsIff(a); NegateSucceedsIff(b);
    case Or(a, b) => NegateSucceedsIff(a); NegateSucceedsIff(b);
    case Not(p) => NegateSucceedsIff(p); NegatedLeafIsOnLeaves(p);
    case _ =>
  }

  lemma {:induction false} NegatedLeafIsOnLeaves(q: Query)
    ensures NegatedLeaf(q) ==> NegationsOnLeaves(q)
  {
  }

  /** A query expands exactly when it orders nothing against null and no negation beneath another
      negation applies to an and/or; otherwise the dialect raises. */
  lemma ExpandSucceedsIff(q: Query)
    ensures Expand(q).Ok? <==> NoNullOrdering(q) && Supported(q)
  {
    NegateSucceedsIff(q);
  }

  /** De Morgan: whatever document `_not` builds matches exactly the records the query does not. */
  lemma {:induction false} NegateIsComplement(less: (Value, Value) -> bool, q: Query, r: Record)
    ensures Expand(q).Ok? ==> (Matches(less, Expand(q).value, r) <==> Means(less, q, r))
    ensures Negate(q).Ok? ==> (Matches(less, Negate(q).value, r) <==> !Means(less, q, r))
  {
    match q
    case And(a, b) => NegateIsComplement(less, a, r); NegateIsComplement(less, b, r);
    case Or(a, b) => NegateIsComplement(less, a, r); NegateIsComplement(less, b, r);
    case Not(p) => NegateIsComplement(less, p, r);
    case _ =>
  }

  /** `~q` holds of exactly the other records, whatever negations `q` has, and what it expands to matches them. */
  lemma InvertIsComplement(less: (Value, Value) -> bool, q: Query, r: Record)
    ensures Means(less, Invert(q), r) <==> !Means(less, q, r)
    ensures Expand(Invert(q)).Ok? ==> (Matches(less, Expand(Invert(q)).value, r) <==> !Means(less, q, r))
  {
    NegateIsComplement(less, q, r);
    NegateIsComplement(less, Invert(q), r);
  }

  /** It expands exactly when nothing is ordered against null and, of a negation, what it negates expands, of any
      other query, its negations apply to comparisons. Inverting twice gives the query back. */
  lemma InvertExpandsIff(q: Query)
    ensures Expand(Invert(q)).Ok? <==>
            NoNullOrdering(q) && match q case Not(p) => Supported(p) case _ => NegationsOnLeaves(q)
    ensures !(q.Not? && q.first.Not?) ==> Invert(Invert(q)) == q
  {
    NegateSucceedsIff(Invert(q));
  }

  /** For a negation-free query `~q` expands whenever `q` does, to the complement document. */
  lemma InvertedQuery(less: (Value, Value) -> bool, q: Query, r: Record)
    requires NegationFree(q) && Expand(q).Ok?
    ensures Expand(Invert(q)).Ok?
    ensures Matches(less, Expand(Invert(q)).value, r) <==> !Matches(less, Expand(q).value, r)
  {
    NegationFreeIsSupported(q);
    NegateSucceedsIff(q);
    NegateIsComplement(less, q, r);
  }

  ghost predicate NegationFree(q: Query) {
    match q
    case And(a, b) => NegationFree(a) && NegationFree(b)
    case Or(a, b) => NegationFree(a) && NegationFree(b)
    case Not(_) => false
    case _ => true
  }

  lemma NegationFreeIsSupported(q: Query)
    requires NegationFree(q)
    ensures NegationsOnLeaves(q)
  {
  }

  /** The smallest shape that raises: an and/or negated inside a negated query. */
  lemma NestedNegationRaises(a: Query, b: Query, c: Query)
    ensures Expand(Not(And(Not(And(a, b)), c))) == Err
  {
    NegateSucceedsIff(And(Not(And(a, b)), c));
  }
}
