/**
 In-memory evaluation against the compiled MongoDB filter: for one term they agree exactly when
 the term does not clash with the field, and a condition without clashes selects the same
 documents on both sides.
 */
module FilterAgreement {
  import opened Wrappers
  import opened Paths
  import opened Bson
  import opened Condition
  import opened F64
  import opened Text
  import ConditionText
  import Mongo

  predicate Supported(v: Value) {
    !v.Arr? && (v.Double? ==> IsF64(v.r))
  }

  predicate SupportedLiterals(lang: Lang, op: Op, rhs: string)
    requires Readable(Compare("", op, rhs))
  {
    if op.IsWord() then forall v <- ParseList(lang, rhs) :: Supported(v) else Supported(ParseLiteral(lang, rhs))
  }

  /** A string that the evaluator takes for a date; the server compares it as text. */
  predicate DateText(lang: Lang, v: Value) {
    v.Str? && lang.parseRfc3339(v.s).Some?
  }

  predicate SameDateText(lang: Lang, a: Value, b: Value) {
    DateText(lang, a) && DateText(lang, b) && lang.parseRfc3339(a.s) == lang.parseRfc3339(b.s)
  }

  /** Numbers that are one number in `f64`. */
  predicate Merged(a: Value, b: Value) {
    AsF64(a).Some? && AsF64(b).Some? && AsF64(a) == AsF64(b)
  }

  /** The exact numbers that one comparison in `f64` gets wrong when it takes them for equal. */
  predicate Misjudged(op: Op, a: real, b: real)
    requires !op.IsWord()
  {
    match op
    case Eq => a != b
    case Ne => a != b
    case Gt => a > b
    case Le => a > b
    case Lt => a < b
    case Ge => a < b
  }

  /** Numbers too large for `f64` to tell apart, compared by an operator that would. */
  predicate NumberClash(op: Op, a: Value, b: Value)
    requires !op.IsWord()
  {
    Merged(a, b) && Misjudged(op, Mongo.Number(a).value, Mongo.Number(b).value)
  }

  /** The same for instants, which are compared as `f64` too. */
  predicate InstantClash(op: Op, a: int, b: int)
    requires !op.IsWord()
  {
    RoundF64(a) == RoundF64(b) && Misjudged(op, a as real, b as real)
  }

  /** The evaluator takes a listed value for the field's, and the server does not. */
  predicate Blurred(lang: Lang, a: Value, b: Value) {
    SameDateText(lang, a, b) || NumberClash(Eq, a, b)
  }

  predicate SameNumber(a: Value, b: Value) {
    Mongo.Number(a).Some? && Mongo.Number(a) == Mongo.Number(b)
  }

  /**
   Where the two meanings part: date text in the field, an ordering on strings, bools or null,
   and integers that `f64` merges.
   */
  predicate Clash(lang: Lang, left: Value, op: Op, rhs: string)
    requires Readable(Compare("", op, rhs))
  {
    if op.IsWord() then
      (exists v <- ParseList(lang, rhs) :: Blurred(lang, left, v)) &&
      !exists v <- ParseList(lang, rhs) :: SameNumber(left, v)
    else
      var right := ParseLiteral(lang, rhs);
      if !op.IsOrdering() then Blurred(lang, left, right)
      else if AsF64(left).Some? && AsF64(right).Some? then NumberClash(op, left, right)
      else match (left, right)
        case (DateTime(x), Str(y)) => DateText(lang, right) && InstantClash(op, x, lang.parseRfc3339(y).value)
        case (Str(x), Str(y)) =>
          if !DateText(lang, right) then Mongo.Related(op.Ordering(), Mongo.CompareStrings(x, y), 0.0)
          else DateText(lang, left) &&
               Mongo.Related(op.Ordering(), RoundF64(lang.parseRfc3339(x).value) as real,
                             RoundF64(lang.parseRfc3339(y).value) as real)
        case (Boolean(x), Boolean(y)) =>
          Mongo.Related(op.Ordering(), if x then 1.0 else 0.0, if y then 1.0 else 0.0)
        case (Null, Null) => op.Ge? || op.Le?
        case _ => false
  }

  predicate PlainField(field: string) {
    !Mongo.IsOperator(field)
  }

  /** Comparing in `f64` keeps the order of the exact numbers, and never parts equal ones. */
  lemma NumbersKeepOrder(a: Value, b: Value)
    requires Supported(a) && Supported(b) && AsF64(a).Some? && AsF64(b).Some?
    ensures Mongo.Number(a).Some? && Mongo.Number(b).Some?
    ensures Mongo.Number(a).value <= Mongo.Number(b).value ==> AsF64(a).value <= AsF64(b).value
    ensures Mongo.Number(b).value <= Mongo.Number(a).value ==> AsF64(b).value <= AsF64(a).value
  {
    hide RoundF64;
    if a.Double? && !b.Double? {
      RoundAgainstDouble(b.i, a.r);
    } else if b.Double? && !a.Double? {
      RoundAgainstDouble(a.i, b.r);
    } else if !a.Double? {
      if a.i <= b.i {
        RoundMonotone(a.i, b.i);
      } else {
        RoundMonotone(b.i, a.i);
      }
    }
  }

  /** An ordering in `f64` differs from the exact one exactly on the numbers it merges and misjudges. */
  lemma NumberOrderingGap(op: Op, a: Value, b: Value)
    requires op.IsOrdering() && Supported(a) && Supported(b) && AsF64(a).Some? && AsF64(b).Some?
    ensures (Mongo.Related(op.Ordering(), AsF64(a).value, AsF64(b).value) ==
             Mongo.Related(op.Ordering(), Mongo.Number(a).value, Mongo.Number(b).value)) <==> !NumberClash(op, a, b)
  {
    hide RoundF64, Supported;
    NumbersKeepOrder(a, b);
  }

  lemma InstantOrderingGap(op: Op, a: int, b: int)
    requires op.IsOrdering()
    ensures (Mongo.Related(op.Ordering(), RoundF64(a) as real, RoundF64(b) as real) ==
             Mongo.Related(op.Ordering(), a as real, b as real)) <==> !InstantClash(op, a, b)
  {
    hide RoundF64;
    if a <= b {
      RoundMonotone(a, b);
    }
    if b <= a {
      RoundMonotone(b, a);
    }
  }

  /** Equality: the evaluator accepts two cases more than the server, merged numbers and date texts of one instant. */
  lemma EqualityGap(lang: Lang, a: Value, b: Value)
    requires Supported(a) && Supported(b) && !b.DateTime?
    ensures Mongo.SameValue(a, CoerceDate(lang, b)) ==> BsonEq(lang, a, b)
    ensures Blurred(lang, a, b) <==> BsonEq(lang, a, b) && !Mongo.SameValue(a, CoerceDate(lang, b))
  {
    hide RoundF64, Supported;
    if AsF64(a).Some? && AsF64(b).Some? {
      NumbersKeepOrder(a, b);
    }
  }

  lemma EqualsOrNull(field: Option<Value>, v: Value)
    ensures Mongo.Equals(field, v) == Mongo.SameValue(OrNull(field), v)
  {
  }

  lemma MembershipGap(lang: Lang, field: Option<Value>, vs: seq<Value>, list: seq<Value>)
    requires Supported(OrNull(field)) && forall v <- vs :: Supported(v) && !v.DateTime?
    requires |list| == |vs| && forall k | 0 <= k < |vs| :: list[k] == ElementToFilter(lang, vs[k])
    ensures var left := OrNull(field);
            var found := exists v <- vs :: BsonEq(lang, left, v);
            var matched := exists e <- list :: Mongo.Equals(field, e);
            (found == matched) <==> !((exists v <- vs :: Blurred(lang, left, v)) &&
                                      !exists v <- vs :: SameNumber(left, v))
  {
    hide Supported, Blurred, SameNumber, BsonEq, Mongo.Equals;
    var left := OrNull(field);
    forall k | 0 <= k < |vs|
      ensures list[k] in list && vs[k] in vs
      ensures Mongo.Equals(field, list[k]) ==> BsonEq(lang, left, vs[k])
      ensures Blurred(lang, left, vs[k]) <==> BsonEq(lang, left, vs[k]) && !Mongo.Equals(field, list[k])
      ensures SameNumber(left, vs[k]) ==> Mongo.Equals(field, list[k])
    {
      EqualityGap(lang, left, vs[k]);
      EqualsOrNull(field, list[k]);
      NumberIsMatched(lang, left, vs[k]);
    }
    forall k, v | 0 <= k < |vs| && v in vs && Blurred(lang, left, v) && Mongo.Equals(field, list[k])
      ensures SameNumber(left, vs[k])
    {
      EqualsOrNull(field, list[k]);
      BlurredMatches(lang, left, v, vs[k]);
    }
  }

  lemma NumberIsMatched(lang: Lang, a: Value, b: Value)
    ensures SameNumber(a, b) ==> Mongo.SameValue(a, CoerceDate(lang, b))
  {
  }

  /** A field that is blurred with one listed value is matched by the server through its exact number alone. */
  lemma BlurredMatches(lang: Lang, left: Value, v: Value, w: Value)
    requires Blurred(lang, left, v) && Mongo.SameValue(left, CoerceDate(lang, w))
    ensures SameNumber(left, w)
  {
    hide RoundF64;
  }

  lemma OrderingGap(lang: Lang, field: Option<Value>, op: Op, rhs: string)
    requires op.IsOrdering() && !LoneQuote(rhs)
    requires Supported(OrNull(field)) && Supported(ParseLiteral(lang, rhs))
    ensures (EvalCompare(lang, OrNull(field), op, rhs) ==
             Mongo.Ordered(op.Ordering(), field, LiteralToFilter(lang, rhs)))
            <==> !Clash(lang, OrNull(field), op, rhs)
  {
    hide RoundF64, Supported, ParseLiteral, Misjudged;
    var left, right := OrNull(field), ParseLiteral(lang, rhs);
    if AsF64(left).Some? && AsF64(right).Some? {
      NumberOrderingGap(op, left, right);
    } else if left.DateTime? && DateText(lang, right) {
      InstantOrderingGap(op, left.ms, lang.parseRfc3339(right.s).value);
    }
  }

  /** What the server does with the filter of one comparison. */
  predicate Served(lang: Lang, field: Option<Value>, op: Op, rhs: string)
    requires Readable(Compare("", op, rhs))
  {
    if op.IsWord() then
      Mongo.Operator(field, if op.In? then "$in" else "$nin", Arr(ListToFilter(lang, ParseList(lang, rhs))))
    else
      var v := LiteralToFilter(lang, rhs);
      if op.IsOrdering() then Mongo.Ordered(op.Ordering(), field, v)
      else if op.Eq? then Mongo.Equals(field, v)
      else !Mongo.Equals(field, v)
  }

  lemma MatchesSingle(d: Document, key: string, v: Value)
    ensures Mongo.Matches(d, Single(key, v)) == Mongo.Clause(d, key, v)
  {
  }

  lemma FilterIsServed(lang: Lang, lhs: string, op: Op, rhs: string, d: Document)
    requires Readable(Compare(lhs, op, rhs)) && PlainField(lhs)
    ensures Mongo.Matches(d, FilterCompare(lang, lhs, op, rhs)) == Served(lang, GetPath(d, lhs), op, rhs)
  {
    var f := FilterCompare(lang, lhs, op, rhs);
    MatchesSingle(d, lhs, f.value);
    if !op.Eq? {
      var ops := f.value.doc;
      assert Mongo.IsOperator(ops.key);
      assert Mongo.AllOperators(GetPath(d, lhs), ops) == Mongo.Operator(GetPath(d, lhs), ops.key, ops.value);
    }
  }

  lemma ServedGap(lang: Lang, field: Option<Value>, op: Op, rhs: string)
    requires Readable(Compare("", op, rhs)) && SupportedLiterals(lang, op, rhs) && Supported(OrNull(field))
    ensures (EvalCompare(lang, OrNull(field), op, rhs) == Served(lang, field, op, rhs)) <==>
              !Clash(lang, OrNull(field), op, rhs)
  {
    hide ParseLiteral, ListPieces, RoundF64;
    if op.IsWord() {
      var vs := ParseList(lang, rhs);
      MembershipGap(lang, field, vs, ListToFilter(lang, vs));
    } else if op.IsOrdering() {
      OrderingGap(lang, field, op, rhs);
    } else {
      EqualityGap(lang, OrNull(field), ParseLiteral(lang, rhs));
      EqualsOrNull(field, LiteralToFilter(lang, rhs));
    }
  }

  /** The fragment: plain field names, no arrays, and doubles that are doubles. */
  predicate InFragment(lang: Lang, t: Term, d: Document) {
    Readable(t) &&
    match t
    case Bare(field) => PlainField(field) && Mongo.NoArrayAlong(d, Split(field))
    case Compare(lhs, op, rhs) =>
      PlainField(lhs) && Mongo.NoArrayAlong(d, Split(lhs)) && Supported(OrNull(GetPath(d, lhs))) &&
      SupportedLiterals(lang, op, rhs)
  }

  predicate TermClashes(lang: Lang, t: Term, d: Document)
    requires Readable(t)
  {
    t.Compare? && Clash(lang, OrNull(GetPath(d, t.lhs)), t.op, t.rhs)
  }

  const FALSY: seq<Value> := [Null, Boolean(false), Int32(0), Str("")]

  lemma NotFalsy(v: Option<Value>)
    ensures Mongo.Operator(v, "$nin", Arr(FALSY)) ==
            (!Mongo.Equals(v, Null) && !Mongo.Equals(v, Boolean(false)) && !Mongo.Equals(v, Int32(0)) &&
             !Mongo.Equals(v, Str("")))
  {
    hide Mongo.Equals;
    assert FALSY[0] == Null && FALSY[1] == Boolean(false) && FALSY[2] == Int32(0) && FALSY[3] == Str("");
  }

  lemma BareAgrees(lang: Lang, field: string, d: Document)
    requires PlainField(field) && Mongo.NoArrayAlong(d, Split(field))
    ensures Mongo.Matches(d, FilterTerm(lang, Bare(field))) == Truthy(GetPath(d, field))
  {
    hide GetPath, Mongo.Matches;
    var ops := FilterTerm(lang, Bare(field)).value.doc;
    MatchesSingle(d, field, Doc(ops));
    var v := GetPath(d, field);
    assert Mongo.AllOperators(v, ops.rest) == (Mongo.Operator(v, "$nin", Arr(FALSY)) && Mongo.AllOperators(v, End));
    assert Mongo.AllOperators(v, ops) ==
           (Mongo.Operator(v, "$exists", Boolean(true)) && Mongo.Operator(v, "$nin", Arr(FALSY)));
    NotFalsy(v);
  }

  /** One term: evaluator and server agree on a document exactly when the term does not clash with it. */
  lemma TermAgreesIffNoClash(lang: Lang, t: Term, d: Document)
    requires InFragment(lang, t, d)
    ensures (EvalTerm(lang, t, d) == Mongo.Matches(d, FilterTerm(lang, t))) <==> !TermClashes(lang, t, d)
  {
    match t {
      case Bare(field) => BareAgrees(lang, field, d);
      case Compare(lhs, op, rhs) =>
        FilterIsServed(lang, lhs, op, rhs, d);
        ServedGap(lang, GetPath(d, lhs), op, rhs);
    }
  }

  predicate Agrees(lang: Lang, t: Term, d: Document)
    requires Readable(t)
  {
    EvalTerm(lang, t, d) == Mongo.Matches(d, FilterTerm(lang, t))
  }

  lemma ConjAgrees(lang: Lang, conj: seq<Term>, d: Document)
    requires ReadableConj(conj) && forall t <- conj :: Agrees(lang, t, d)
    ensures Mongo.Matches(d, FilterAnd(lang, conj)) == EvalConj(lang, conj, d)
  {
    hide EvalTerm, FilterTerm, Readable;
    if |conj| == 1 {
      assert forall t <- conj :: t == conj[0];
      assert conj[0] in conj;
    } else {
      var parts := seq(|conj|, k requires 0 <= k < |conj| => Doc(FilterTerm(lang, conj[k])));
      MatchesSingle(d, "$and", Arr(parts));
      forall k | 0 <= k < |conj|
        ensures parts[k] in parts && parts[k] == Doc(FilterTerm(lang, conj[k]))
        ensures conj[k] in conj && Mongo.Matches(d, parts[k].doc) == EvalTerm(lang, conj[k], d)
      {
      }
    }
  }

  lemma DnfAgrees(lang: Lang, dnf: seq<seq<Term>>, d: Document)
    requires AllReadable(dnf) && forall conj <- dnf, t <- conj :: Agrees(lang, t, d)
    ensures Mongo.Matches(d, FilterOr(lang, dnf)) == EvalDnf(lang, dnf, d)
  {
    hide EvalTerm, FilterTerm, EvalConj, FilterAnd, Readable;
    if |dnf| == 1 {
      assert dnf[0] in dnf && forall conj <- dnf :: conj == dnf[0];
      ConjAgrees(lang, dnf[0], d);
    } else {
      var parts := seq(|dnf|, i requires 0 <= i < |dnf| => Doc(FilterAnd(lang, dnf[i])));
      MatchesSingle(d, "$or", Arr(parts));
      forall i | 0 <= i < |dnf|
        ensures parts[i] in parts && parts[i] == Doc(FilterAnd(lang, dnf[i]))
        ensures dnf[i] in dnf && Mongo.Matches(d, parts[i].doc) == EvalConj(lang, dnf[i], d)
      {
        ConjAgrees(lang, dnf[i], d);
      }
    }
  }

  predicate Portable(lang: Lang, expr: string, d: Document) {
    forall conj <- Terms(lang, expr), t <- conj :: InFragment(lang, t, d) && !TermClashes(lang, t, d)
  }

  /** A portable condition selects the same documents in memory and on the server. */
  lemma EvalIsFilter(lang: Lang, expr: string, d: Document)
    requires AllReadable(Terms(lang, expr)) && Portable(lang, expr, d)
    ensures Eval(lang, expr, d) == Mongo.Matches(d, ToFilter(lang, expr))
  {
    var dnf := Terms(lang, expr);
    forall conj <- dnf, t <- conj
      ensures Agrees(lang, t, d)
    {
      TermAgreesIffNoClash(lang, t, d);
    }
    DnfAgrees(lang, dnf, d);
  }

  /**
   A field holding an integer against an integer literal, of any size: evaluator and server
   disagree exactly when `f64` merges the two and the operator would tell them apart.
   */
  lemma IntegersDivergeIff(lang: Lang, lhs: string, op: Op, rhs: string, d: Document, a: int, b: int)
    requires !op.IsWord() && !LoneQuote(rhs) && ParseLiteral(lang, rhs) == Int64(b)
    requires PlainField(lhs) && Mongo.NoArrayAlong(d, Split(lhs)) && GetPath(d, lhs) == Some(Int64(a))
    ensures var t := Compare(lhs, op, rhs);
            EvalTerm(lang, t, d) != Mongo.Matches(d, FilterTerm(lang, t)) <==>
            RoundF64(a) == RoundF64(b) && Misjudged(op, a as real, b as real)
  {
    hide ParseLiteral, RoundF64, EvalTerm, FilterTerm;
    TermAgreesIffNoClash(lang, Compare(lhs, op, rhs), d);
  }

  /** The first such pair: a field of 2^53 + 1 equals the literal 2^53 in memory and not on the server. */
  lemma LargeIntegersDiverge(lang: Lang, d: Document)
    requires GetPath(d, "n") == Some(Int64(TWO_53 + 1)) && Mongo.NoArrayAlong(d, Split("n"))
    ensures var t := Compare("n", Eq, ShowInt(TWO_53));
            Readable(t) && EvalTerm(lang, t, d) && !Mongo.Matches(d, FilterTerm(lang, t))
  {
    hide ParseLiteral, FilterTerm, ShowInt;
    ConditionText.LiteralReadsBack(lang, ConditionText.Integer(TWO_53));
    assert RoundF64(TWO_53 + 1) == RoundF64(TWO_53 + 1, 2) == RoundTo(TWO_53 + 1, 2) == TWO_53;
    IntegersDivergeIff(lang, "n", Eq, ShowInt(TWO_53), d, TWO_53 + 1, TWO_53);
  }
}
