/**
 The condition language: one text, evaluated in memory by `Eval` and compiled to a MongoDB
 filter by `ToFilter`. The main result is that the two agree, and exactly where they do not.
 */
module Condition {
  import opened Wrappers
  import opened Bson
  import opened QuoteScan
  import opened Text
  import opened F64
  import Mongo

  /** The library parsers the language rests on. Every result holds for any choice of them. */
  datatype Lang = Lang(
    alnum: CharClass,
    parseF64: string -> Option<real>,
    parseRfc3339: string -> Option<int>)

  datatype Op = Eq | Ne | Ge | Le | Gt | Lt | NotIn | In {
    function Symbol(): Token {
      match this
      case Eq => "=="
      case Ne => "!="
      case Ge => ">="
      case Le => "<="
      case Gt => ">"
      case Lt => "<"
      case NotIn => "not in"
      case In => "in"
    }

    predicate IsWord() {
      NotIn? || In?
    }

    predicate IsOrdering() {
      Ge? || Le? || Gt? || Lt?
    }

    function Ordering(): Mongo.Ordering
      requires IsOrdering()
    {
      match this
      case Gt => Mongo.Greater
      case Lt => Mongo.Less
      case Ge => Mongo.GreaterOrEqual
      case Le => Mongo.LessOrEqual
    }
  }

  /** The order in which a term is searched for its operator. */
  const SEARCH_ORDER: seq<Op> := [Eq, Ne, Ge, Le, Gt, Lt, NotIn, In]

  datatype Term = Compare(lhs: string, op: Op, rhs: string) | Bare(field: string)

  function Find(lang: Lang, term: string, op: Op): Option<nat> {
    if op.IsWord() then FindWordOp(lang.alnum, term, op.Symbol()) else FindOp(term, op.Symbol())
  }

  lemma FoundFits(lang: Lang, term: string, op: Op)
    ensures match Find(lang, term, op) case Some(i) => i + |op.Symbol()| <= |term| case None => true
  {
    FindIsFirst(term, op.Symbol(), None);
    FindWordIsFirst(lang.alnum, term, op.Symbol(), None, None);
  }

  function Dispatch(lang: Lang, term: string, ops: seq<Op> := SEARCH_ORDER): Term
    decreases |ops|
  {
    if ops == [] then Bare(Trim(term))
    else
      var op := ops[0];
      FoundFits(lang, term, op);
      match Find(lang, term, op)
      case Some(i) => Compare(Trim(term[..i]), op, Trim(term[i + |op.Symbol()|..]))
      case None => Dispatch(lang, term, ops[1..])
  }

  // Literals.

  /** A literal that is a lone quote character: slicing off its two quotes fails. */
  predicate LoneQuote(s: string) {
    Trim(s) == "'" || Trim(s) == "\""
  }

  predicate Enclosed(s: string, c: char) {
    |s| > 1 && s[0] == c && s[|s| - 1] == c
  }

  function ParseLiteral(lang: Lang, text: string): (v: Value)
    requires !LoneQuote(text)
    ensures !v.DateTime? && !v.Doc? && !v.Arr?
  {
    var s := Trim(text);
    if Enclosed(s, '\'') || Enclosed(s, '"') then
      Str(s[1..|s| - 1])
    else if s == "true" then Boolean(true)
    else if s == "false" then Boolean(false)
    else if s == "null" then Null
    else match ParseI64(s)
      case Some(i) => Int64(i)
      case None =>
        match lang.parseF64(s)
        case Some(f) => Double(f)
        case None => Str(s)
  }

  function ListPieces(text: string): seq<string> {
    var s := Trim(text);
    if |s| < 2 || s[0] != '[' || s[|s| - 1] != ']' then []
    else
      var interior := s[1..|s| - 1];
      if Trim(interior) == "" then [] else SplitTop(interior, ",")
  }

  predicate ReadableList(text: string) {
    forall piece <- ListPieces(text) :: !LoneQuote(Trim(piece))
  }

  /** A text that is no bracketed list reads as the empty list. */
  function ParseList(lang: Lang, text: string): (vs: seq<Value>)
    requires ReadableList(text)
    ensures forall v <- vs :: !v.DateTime? && !v.Doc? && !v.Arr?
  {
    var pieces := ListPieces(text);
    seq(|pieces|, k requires 0 <= k < |pieces| => assert pieces[k] in pieces; ParseLiteral(lang, Trim(pieces[k])))
  }

  /** Without brackets, or with nothing between them, there is nothing in the list. */
  lemma NoListIsEmpty(lang: Lang, text: string)
    requires var s := Trim(text); |s| < 2 || s[0] != '[' || s[|s| - 1] != ']' || Trim(s[1..|s| - 1]) == ""
    ensures ReadableList(text) && ParseList(lang, text) == []
  {
  }

  // In-memory evaluation.

  function AsF64(v: Value): Option<real> {
    match v
    case Int32(i) => Some(RoundF64(i) as real)
    case Int64(i) => Some(RoundF64(i) as real)
    case Double(r) => Some(r)
    case _ => None
  }

  function AsMillis(lang: Lang, v: Value): Option<int> {
    match v
    case DateTime(ms) => Some(ms)
    case Str(s) => lang.parseRfc3339(s)
    case _ => None
  }

  predicate BsonEq(lang: Lang, a: Value, b: Value) {
    if AsF64(a).Some? && AsF64(b).Some? then AsF64(a) == AsF64(b)
    else if AsMillis(lang, a).Some? && AsMillis(lang, b).Some? then AsMillis(lang, a) == AsMillis(lang, b)
    else a == b
  }

  predicate Truthy(v: Option<Value>) {
    match v
    case None => false
    case Some(Null) => false
    case Some(Boolean(b)) => b
    case Some(Str(s)) => s != ""
    case Some(Int32(n)) => n != 0
    case Some(Int64(n)) => n != 0
    case Some(Double(n)) => n != 0.0
    case Some(_) => true
  }

  predicate Readable(t: Term) {
    match t
    case Bare(_) => true
    case Compare(_, op, rhs) => if op.IsWord() then ReadableList(rhs) else !LoneQuote(rhs)
  }

  predicate EvalCompare(lang: Lang, left: Value, op: Op, rhs: string)
    requires Readable(Compare("", op, rhs))
  {
    if op.IsWord() then
      var found := exists v <- ParseList(lang, rhs) :: BsonEq(lang, left, v);
      if op.In? then found else !found
    else
      var right := ParseLiteral(lang, rhs);
      if op.Eq? then BsonEq(lang, left, right)
      else if op.Ne? then !BsonEq(lang, left, right)
      else if AsF64(left).Some? && AsF64(right).Some? then
        Mongo.Related(op.Ordering(), AsF64(left).value, AsF64(right).value)
      else if AsMillis(lang, left).Some? && AsMillis(lang, right).Some? then
        Mongo.Related(op.Ordering(), RoundF64(AsMillis(lang, left).value) as real,
                      RoundF64(AsMillis(lang, right).value) as real)
      else false
  }

  function OrNull(v: Option<Value>): Value {
    if v.Some? then v.value else Null
  }

  predicate EvalTerm(lang: Lang, t: Term, d: Document)
    requires Readable(t)
  {
    match t
    case Compare(lhs, op, rhs) => EvalCompare(lang, OrNull(GetPath(d, lhs)), op, rhs)
    case Bare(field) => Truthy(GetPath(d, field))
  }

  // Compilation to a filter.

  function CoerceDate(lang: Lang, v: Value): Value {
    match v
    case Str(s) => (match lang.parseRfc3339(s) case Some(ms) => DateTime(ms) case None => v)
    case _ => v
  }

  function LiteralToFilter(lang: Lang, text: string): Value
    requires !LoneQuote(text)
  {
    CoerceDate(lang, ParseLiteral(lang, text))
  }

  /** List elements that are strings are quoted again and re-read, which is how they become dates. */
  function ElementToFilter(lang: Lang, v: Value): Value {
    match v
    case Str(s) => QuotedIsTight(s); LiteralToFilter(lang, "'" + s + "'")
    case _ => v
  }

  lemma QuotedIsTight(s: string)
    ensures Trim("'" + s + "'") == "'" + s + "'"
    ensures !LoneQuote("'" + s + "'")
  {
    TrimTight("'" + s + "'");
  }

  function ListToFilter(lang: Lang, vs: seq<Value>): seq<Value> {
    seq(|vs|, k requires 0 <= k < |vs| => ElementToFilter(lang, vs[k]))
  }

  function FilterCompare(lang: Lang, lhs: string, op: Op, rhs: string): Document
    requires Readable(Compare(lhs, op, rhs))
  {
    if op.IsWord() then
      Single(lhs, Doc(Single(if op.In? then "$in" else "$nin", Arr(ListToFilter(lang, ParseList(lang, rhs))))))
    else
      var value := LiteralToFilter(lang, rhs);
      match op
      case Eq => Single(lhs, value)
      case Ne => Single(lhs, Doc(Single("$ne", value)))
      case Gt => Single(lhs, Doc(Single("$gt", value)))
      case Lt => Single(lhs, Doc(Single("$lt", value)))
      case Ge => Single(lhs, Doc(Single("$gte", value)))
      case Le => Single(lhs, Doc(Single("$lte", value)))
  }

  function FilterTerm(lang: Lang, t: Term): Document
    requires Readable(t)
  {
    match t
    case Compare(lhs, op, rhs) => FilterCompare(lang, lhs, op, rhs)
    case Bare(field) =>
      Single(field, Doc(Field("$exists", Boolean(true),
                        Single("$nin", Arr([Null, Boolean(false), Int32(0), Str("")])))))
  }

  // Whole conditions.

  /** The or-of-ands of terms that a condition text stands for. */
  function Terms(lang: Lang, expr: string): (dnf: seq<seq<Term>>)
    ensures |dnf| > 0 && forall conj <- dnf :: |conj| > 0
  {
    var ors := SplitTop(expr, " or ");
    seq(|ors|, i requires 0 <= i < |ors| => Conjuncts(lang, ors[i]))
  }

  function Conjuncts(lang: Lang, expr: string): (conj: seq<Term>)
    ensures |conj| > 0
  {
    var ands := SplitTop(expr, " and ");
    seq(|ands|, k requires 0 <= k < |ands| => Dispatch(lang, Trim(ands[k])))
  }

  predicate ReadableConj(conj: seq<Term>) {
    |conj| > 0 && forall t <- conj :: Readable(t)
  }

  predicate AllReadable(dnf: seq<seq<Term>>) {
    |dnf| > 0 && forall conj <- dnf :: ReadableConj(conj)
  }

  predicate EvalConj(lang: Lang, conj: seq<Term>, d: Document)
    requires ReadableConj(conj)
  {
    forall t <- conj :: EvalTerm(lang, t, d)
  }

  predicate EvalDnf(lang: Lang, dnf: seq<seq<Term>>, d: Document)
    requires AllReadable(dnf)
  {
    exists conj <- dnf :: EvalConj(lang, conj, d)
  }

  function FilterAnd(lang: Lang, conj: seq<Term>): Document
    requires ReadableConj(conj)
  {
    if |conj| == 1 then FilterTerm(lang, conj[0])
    else Single("$and", Arr(seq(|conj|, k requires 0 <= k < |conj| => Doc(FilterTerm(lang, conj[k])))))
  }

  function FilterOr(lang: Lang, dnf: seq<seq<Term>>): Document
    requires AllReadable(dnf)
  {
    if |dnf| == 1 then FilterAnd(lang, dnf[0])
    else Single("$or", Arr(seq(|dnf|, i requires 0 <= i < |dnf| => Doc(FilterAnd(lang, dnf[i])))))
  }

  /** `Condition::parse`: only a blank text is refused. */
  function Parse(expr: string): Result<string, string> {
    if Trim(expr) == "" then Failure("empty when expression") else Success(expr)
  }

  /** Refused are the texts of blanks alone. */
  lemma ParseMeans(expr: string)
    ensures Parse(expr) == Success(expr) <==> exists c <- expr :: !IsWhitespace(c)
    ensures Parse(expr).Failure? <==> forall c <- expr :: IsWhitespace(c)
  {
    var before, after := TrimMeans(expr);
    if Trim(expr) != "" {
      assert Trim(expr)[0] in Trim(expr) && Trim(expr)[0] in expr;
    }
  }

  predicate Eval(lang: Lang, expr: string, d: Document)
    requires AllReadable(Terms(lang, expr))
  {
    EvalDnf(lang, Terms(lang, expr), d)
  }

  function ToFilter(lang: Lang, expr: string): Document
    requires AllReadable(Terms(lang, expr))
  {
    FilterOr(lang, Terms(lang, expr))
  }
}
