/**
 What a MongoDB filter document means: the server side of every filter the program builds.
 Comparison follows type bracketing, `$in`, `$nin` and equality treat an absent field as null,
 and all numeric types compare by value. Fields holding arrays are not part of this model.
 */
module Mongo {
  import opened Wrappers
  import opened Paths
  import opened Bson
  import opened Text

  datatype Ordering = Greater | Less | GreaterOrEqual | LessOrEqual

  predicate Related(o: Ordering, a: real, b: real) {
    match o
    case Greater => a > b
    case Less => a < b
    case GreaterOrEqual => a >= b
    case LessOrEqual => a <= b
  }

  function Number(v: Value): Option<real> {
    match v
    case Int32(i) => Some(i as real)
    case Int64(i) => Some(i as real)
    case Double(r) => Some(r)
    case _ => None
  }

  /** The exact numeric value is compared, whatever the types; otherwise values must be identical. */
  predicate SameValue(a: Value, b: Value) {
    if Number(a).Some? && Number(b).Some? then Number(a) == Number(b) else a == b
  }

  predicate Equals(field: Option<Value>, v: Value) {
    match field
    case None => v.Null?
    case Some(a) => SameValue(a, v)
  }

  function CompareStrings(a: string, b: string): real {
    if a == b then 0.0 else if Precedes(a, b) then -1.0 else 1.0
  }

  /** Type bracketing: values of different types are unordered, so neither `$gt` nor `$lte` holds. */
  predicate Ordered(o: Ordering, field: Option<Value>, v: Value) {
    var a := if field.Some? then field.value else Null;
    if Number(a).Some? && Number(v).Some? then Related(o, Number(a).value, Number(v).value)
    else match (a, v)
      case (DateTime(x), DateTime(y)) => Related(o, x as real, y as real)
      case (Str(x), Str(y)) => Related(o, CompareStrings(x, y), 0.0)
      case (Boolean(x), Boolean(y)) => Related(o, if x then 1.0 else 0.0, if y then 1.0 else 0.0)
      case (Null, Null) => Related(o, 0.0, 0.0)
      case _ => false
  }

  /** The server looks inside arrays on the way to a field; this model does not. */
  predicate NoArrayAlong(d: Document, p: Segments)
    decreases |p|
  {
    match Get(d, p[0])
    case None => true
    case Some(v) => !v.Arr? && (v.Doc? && |p| > 1 ==> NoArrayAlong(v.doc, p[1..]))
  }

  predicate IsOperator(key: string) {
    key != "" && key[0] == '$'
  }

  predicate Operator(field: Option<Value>, op: string, v: Value) {
    match op
    case "$exists" => v == Boolean(field.Some?)
    case "$ne" => !Equals(field, v)
    case "$in" => v.Arr? && exists e <- v.elems :: Equals(field, e)
    case "$nin" => v.Arr? && forall e <- v.elems :: !Equals(field, e)
    case "$gt" => Ordered(Greater, field, v)
    case "$lt" => Ordered(Less, field, v)
    case "$gte" => Ordered(GreaterOrEqual, field, v)
    case "$lte" => Ordered(LessOrEqual, field, v)
    case _ => false
  }

  predicate AllOperators(field: Option<Value>, ops: Document) {
    match ops
    case End => true
    case Field(op, v, rest) => Operator(field, op, v) && AllOperators(field, rest)
  }

  /** A document matches a filter when it meets every clause of it. */
  predicate Matches(d: Document, filter: Document)
    decreases filter, 0
  {
    match filter
    case End => true
    case Field(key, v, rest) => Clause(d, key, v) && Matches(d, rest)
  }

  predicate Clause(d: Document, key: string, v: Value)
    decreases v, 1
  {
    if key == "$and" then v.Arr? && forall e <- v.elems :: e.Doc? && Matches(d, e.doc)
    else if key == "$or" then v.Arr? && exists e <- v.elems :: e.Doc? && Matches(d, e.doc)
    else if IsOperator(key) then false
    else if v.Doc? && v.doc.Field? && IsOperator(v.doc.key) then AllOperators(GetPath(d, key), v.doc)
    else Equals(GetPath(d, key), v)
  }
}
