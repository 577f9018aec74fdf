/**
 What a condition text means, operator by operator as it is spelled: the documents it holds for
 in memory, and the filter it becomes. Everything is stated on texts and values.
 */
module ConditionMeaning {
  import opened Wrappers
  import opened Bson
  import opened Text
  import opened F64
  import opened QuoteScan
  import opened Condition
  import opened ConditionText

  // A single term as a whole condition.

  /** The text of one term is a condition of that term alone. */
  lemma TermAlone(lang: Lang, t: Written)
    requires AsciiLang(lang) && Plain(lang, t) && Unambiguous(t)
    ensures Terms(lang, Show(t)) == [[Intended(t)]] && AllReadable([[Intended(t)]])
  {
    hide Terms, Show, AsciiLang, Plain, Unambiguous;
    var dnf := [[t]];
    assert dnf[0] == [t] && [t][0] == t && ShowOr(dnf) == Show(t);
    ConditionReadsBack(lang, dnf);
    OperandsReadBack(lang, t);
    var read := Terms(lang, Show(t));
    assert Reads(read[0], dnf[0]);
    assert read[0][0] == Intended([t][0]);
    assert read[0] == [Intended(t)] && read == [read[0]];
  }

  /** How each operator is spelled between a path and what stands on its right. */
  lemma Spelled(p: string, l: Literal, ls: seq<Literal>)
    ensures var s := ShowLiteral(l);
            Show(Comparison(p, Eq, l)) == p + " == " + s && Show(Comparison(p, Ne, l)) == p + " != " + s &&
            Show(Comparison(p, Gt, l)) == p + " > " + s && Show(Comparison(p, Lt, l)) == p + " < " + s &&
            Show(Comparison(p, Ge, l)) == p + " >= " + s && Show(Comparison(p, Le, l)) == p + " <= " + s
    ensures Show(Membership(p, false, ls)) == p + " in " + ShowList(ls)
    ensures Show(Membership(p, true, ls)) == p + " not in " + ShowList(ls)
    ensures Show(Flag(p)) == p
  {
    hide ShowLiteral, ShowList;
    var s, list := ShowLiteral(l), ShowList(ls);
    SpacedIs(p, "==", s);
    SpacedIs(p, "!=", s);
    SpacedIs(p, ">", s);
    SpacedIs(p, "<", s);
    SpacedIs(p, ">=", s);
    SpacedIs(p, "<=", s);
    SpacedIs(p, "in", list);
    SpacedIs(p, "not in", list);
    assert " " + "==" + " " == " == " && " " + "!=" + " " == " != " && " " + ">" + " " == " > ";
    assert " " + "<" + " " == " < " && " " + ">=" + " " == " >= " && " " + "<=" + " " == " <= ";
    assert " " + "in" + " " == " in " && " " + "not in" + " " == " not in ";
  }

  lemma SpacedIs(p: string, sym: string, right: string)
    ensures Spaced(p, sym, right) == p + (" " + sym + " ") + right
  {
    assert Spaced(p, sym, right) == p + (" " + sym + " ") + right;
  }

  // Comparisons.

  /** The six comparison texts of a path and a literal are conditions. */
  ghost predicate Comparable(lang: Lang, p: string, s: string) {
    AllReadable(Terms(lang, p + " == " + s)) && AllReadable(Terms(lang, p + " != " + s)) &&
    AllReadable(Terms(lang, p + " > " + s)) && AllReadable(Terms(lang, p + " < " + s)) &&
    AllReadable(Terms(lang, p + " >= " + s)) && AllReadable(Terms(lang, p + " <= " + s))
  }

  lemma ComparisonsAlone(lang: Lang, p: string, l: Literal)
    requires AsciiLang(lang) && PlainPath(p) && PlainLiteral(lang, l)
    ensures var s := ShowLiteral(l);
            Comparable(lang, p, s) && !LoneQuote(s) && ParseLiteral(lang, s) == Meaning(lang, l)
    ensures var s := ShowLiteral(l);
            Terms(lang, p + " == " + s) == [[Compare(p, Eq, s)]] &&
            Terms(lang, p + " != " + s) == [[Compare(p, Ne, s)]] &&
            Terms(lang, p + " > " + s) == [[Compare(p, Gt, s)]] &&
            Terms(lang, p + " < " + s) == [[Compare(p, Lt, s)]] &&
            Terms(lang, p + " >= " + s) == [[Compare(p, Ge, s)]] &&
            Terms(lang, p + " <= " + s) == [[Compare(p, Le, s)]]
  {
    hide Terms, Show, ShowLiteral, AsciiLang, PlainPath, PlainLiteral, LoneQuote, ParseLiteral;
    Spelled(p, l, []);
    LiteralReadsBack(lang, l);
    TermAlone(lang, Comparison(p, Eq, l));
    TermAlone(lang, Comparison(p, Ne, l));
    TermAlone(lang, Comparison(p, Gt, l));
    TermAlone(lang, Comparison(p, Lt, l));
    TermAlone(lang, Comparison(p, Ge, l));
    TermAlone(lang, Comparison(p, Le, l));
  }

  /** The number a value is, as it is compared in memory. */
  ghost predicate IsNumber(v: Value, x: real) {
    (v.Int32? && x == RoundF64(v.i) as real) || (v.Int64? && x == RoundF64(v.i) as real) || (v.Double? && x == v.r)
  }

  /** The point in time a value is or spells. */
  ghost predicate IsInstant(lang: Lang, v: Value, ms: int) {
    v == DateTime(ms) || (v.Str? && lang.parseRfc3339(v.s) == Some(ms))
  }

  /** A single comparison, evaluated. */
  lemma EvalAlone(lang: Lang, text: string, t: Term, d: Document)
    requires Terms(lang, text) == [[t]] && AllReadable([[t]])
    ensures Readable(t) && (Eval(lang, text, d) <==> EvalTerm(lang, t, d))
    ensures ToFilter(lang, text) == FilterTerm(lang, t)
  {
    hide Terms, EvalTerm, FilterTerm, Readable;
    assert [[t]][0] in [[t]] && [t][0] in [t];
  }

  /** Numbers are compared as such by each of the six operators. */
  lemma NumbersCompare(lang: Lang, p: string, l: Literal, d: Document, x: real, y: real)
    requires AsciiLang(lang) && PlainPath(p) && PlainLiteral(lang, l)
    requires IsNumber(OrNull(GetPath(d, p)), x) && IsNumber(Meaning(lang, l), y)
    ensures var s := ShowLiteral(l);
            Comparable(lang, p, s) &&
            (Eval(lang, p + " == " + s, d) <==> x == y) && (Eval(lang, p + " != " + s, d) <==> x != y) &&
            (Eval(lang, p + " > " + s, d) <==> x > y) && (Eval(lang, p + " < " + s, d) <==> x < y) &&
            (Eval(lang, p + " >= " + s, d) <==> x >= y) && (Eval(lang, p + " <= " + s, d) <==> x <= y)
  {
    hide Terms, ShowLiteral, ParseLiteral, LoneQuote, RoundF64, Eval, PlainPath, AsciiLang, PlainLiteral;
    var s := ShowLiteral(l);
    ComparisonsAlone(lang, p, l);
    EvalAlone(lang, p + " == " + s, Compare(p, Eq, s), d);
    EvalAlone(lang, p + " != " + s, Compare(p, Ne, s), d);
    EvalAlone(lang, p + " > " + s, Compare(p, Gt, s), d);
    EvalAlone(lang, p + " < " + s, Compare(p, Lt, s), d);
    EvalAlone(lang, p + " >= " + s, Compare(p, Ge, s), d);
    EvalAlone(lang, p + " <= " + s, Compare(p, Le, s), d);
  }

  /** Integers, in digits: the comparison is the one of the integers rounded to doubles. */
  lemma IntegersCompare(lang: Lang, p: string, b: int, d: Document, a: int)
    requires AsciiLang(lang) && PlainPath(p) && I64_MIN <= b <= I64_MAX
    requires GetPath(d, p) == Some(Int32(a)) || GetPath(d, p) == Some(Int64(a))
    ensures var s := ShowInt(b);
            Comparable(lang, p, s) &&
            (Eval(lang, p + " == " + s, d) <==> RoundF64(a) == RoundF64(b)) &&
            (Eval(lang, p + " != " + s, d) <==> RoundF64(a) != RoundF64(b)) &&
            (Eval(lang, p + " > " + s, d) <==> RoundF64(a) > RoundF64(b)) &&
            (Eval(lang, p + " < " + s, d) <==> RoundF64(a) < RoundF64(b)) &&
            (Eval(lang, p + " >= " + s, d) <==> RoundF64(a) >= RoundF64(b)) &&
            (Eval(lang, p + " <= " + s, d) <==> RoundF64(a) <= RoundF64(b))
  {
    hide Eval, RoundF64, ShowInt, Comparable, AsciiLang, PlainPath;
    NumbersCompare(lang, p, Integer(b), d, RoundF64(a) as real, RoundF64(b) as real);
  }

  /** Points in time: equal or not exactly, before or after as doubles. */
  lemma InstantsCompare(lang: Lang, p: string, l: Literal, d: Document, a: int, b: int)
    requires AsciiLang(lang) && PlainPath(p) && PlainLiteral(lang, l)
    requires IsInstant(lang, OrNull(GetPath(d, p)), a) && IsInstant(lang, Meaning(lang, l), b)
    ensures var s := ShowLiteral(l);
            Comparable(lang, p, s) &&
            (Eval(lang, p + " == " + s, d) <==> a == b) && (Eval(lang, p + " != " + s, d) <==> a != b) &&
            (Eval(lang, p + " > " + s, d) <==> RoundF64(a) > RoundF64(b)) &&
            (Eval(lang, p + " < " + s, d) <==> RoundF64(a) < RoundF64(b)) &&
            (Eval(lang, p + " >= " + s, d) <==> RoundF64(a) >= RoundF64(b)) &&
            (Eval(lang, p + " <= " + s, d) <==> RoundF64(a) <= RoundF64(b))
  {
    hide Terms, ShowLiteral, ParseLiteral, LoneQuote, RoundF64, Eval, PlainPath, AsciiLang, PlainLiteral;
    var s := ShowLiteral(l);
    ComparisonsAlone(lang, p, l);
    EvalAlone(lang, p + " == " + s, Compare(p, Eq, s), d);
    EvalAlone(lang, p + " != " + s, Compare(p, Ne, s), d);
    EvalAlone(lang, p + " > " + s, Compare(p, Gt, s), d);
    EvalAlone(lang, p + " < " + s, Compare(p, Lt, s), d);
    EvalAlone(lang, p + " >= " + s, Compare(p, Ge, s), d);
    EvalAlone(lang, p + " <= " + s, Compare(p, Le, s), d);
  }

  /** Anything else is equal only to itself, and neither before nor after anything. */
  lemma OthersCompare(lang: Lang, p: string, l: Literal, d: Document)
    requires AsciiLang(lang) && PlainPath(p) && PlainLiteral(lang, l)
    requires var left, right := OrNull(GetPath(d, p)), Meaning(lang, l);
             !(exists x, y :: IsNumber(left, x) && IsNumber(right, y)) &&
             !(exists a, b :: IsInstant(lang, left, a) && IsInstant(lang, right, b))
    ensures var s, same := ShowLiteral(l), OrNull(GetPath(d, p)) == Meaning(lang, l);
            Comparable(lang, p, s) && (Eval(lang, p + " == " + s, d) <==> same) &&
            (Eval(lang, p + " != " + s, d) <==> !same) &&
            !Eval(lang, p + " > " + s, d) && !Eval(lang, p + " < " + s, d) &&
            !Eval(lang, p + " >= " + s, d) && !Eval(lang, p + " <= " + s, d)
  {
    hide Terms, ShowLiteral, ParseLiteral, LoneQuote, RoundF64, Eval, PlainPath, AsciiLang, PlainLiteral;
    var s, left, right := ShowLiteral(l), OrNull(GetPath(d, p)), Meaning(lang, l);
    assert AsF64(left).Some? ==> IsNumber(left, AsF64(left).value);
    assert AsF64(right).Some? ==> IsNumber(right, AsF64(right).value);
    assert AsMillis(lang, left).Some? ==> IsInstant(lang, left, AsMillis(lang, left).value);
    assert AsMillis(lang, right).Some? ==> IsInstant(lang, right, AsMillis(lang, right).value);
    ComparisonsAlone(lang, p, l);
    EvalAlone(lang, p + " == " + s, Compare(p, Eq, s), d);
    EvalAlone(lang, p + " != " + s, Compare(p, Ne, s), d);
    EvalAlone(lang, p + " > " + s, Compare(p, Gt, s), d);
    EvalAlone(lang, p + " < " + s, Compare(p, Lt, s), d);
    EvalAlone(lang, p + " >= " + s, Compare(p, Ge, s), d);
    EvalAlone(lang, p + " <= " + s, Compare(p, Le, s), d);
  }

  /** The value a literal is sent to the server as: date text as a date. */
  ghost predicate SentAs(lang: Lang, v: Value, w: Value) {
    if v.Str? && lang.parseRfc3339(v.s).Some? then w == DateTime(lang.parseRfc3339(v.s).value) else w == v
  }

  /** The filters of the six comparisons. */
  lemma ComparisonFilters(lang: Lang, p: string, l: Literal, w: Value)
    requires AsciiLang(lang) && PlainPath(p) && PlainLiteral(lang, l) && SentAs(lang, Meaning(lang, l), w)
    ensures var s := ShowLiteral(l);
            Comparable(lang, p, s) && ToFilter(lang, p + " == " + s) == Single(p, w) &&
            ToFilter(lang, p + " != " + s) == Single(p, Doc(Single("$ne", w))) &&
            ToFilter(lang, p + " > " + s) == Single(p, Doc(Single("$gt", w))) &&
            ToFilter(lang, p + " < " + s) == Single(p, Doc(Single("$lt", w))) &&
            ToFilter(lang, p + " >= " + s) == Single(p, Doc(Single("$gte", w))) &&
            ToFilter(lang, p + " <= " + s) == Single(p, Doc(Single("$lte", w)))
  {
    hide Terms, ShowLiteral, ParseLiteral, LoneQuote, ToFilter, PlainPath, AsciiLang, PlainLiteral;
    var s := ShowLiteral(l);
    ComparisonsAlone(lang, p, l);
    EvalAlone(lang, p + " == " + s, Compare(p, Eq, s), End);
    EvalAlone(lang, p + " != " + s, Compare(p, Ne, s), End);
    EvalAlone(lang, p + " > " + s, Compare(p, Gt, s), End);
    EvalAlone(lang, p + " < " + s, Compare(p, Lt, s), End);
    EvalAlone(lang, p + " >= " + s, Compare(p, Ge, s), End);
    EvalAlone(lang, p + " <= " + s, Compare(p, Le, s), End);
  }

  // Lists, bare fields, unquoted text.

  /** How a list is spelled. */
  lemma ListSpelled(a: Literal, b: Literal)
    ensures ShowList([]) == "[]" && ShowList([a]) == "[" + ShowLiteral(a) + "]"
    ensures ShowList([a, b]) == "[" + ShowLiteral(a) + ", " + ShowLiteral(b) + "]"
  {
    var x, y := ShowLiteral(a), ShowLiteral(b);
    hide ShowLiteral;
    assert [a, b][1..] == [b];
    assert ShowItems([a, b]) == x + "," + (" " + y);
    assert "[" + (x + "," + (" " + y)) + "]" == "[" + x + ", " + y + "]";
  }

  /** The evaluation of an equality, and of the list operators, on the values read. */
  lemma EqualityIs(lang: Lang, p: string, l: Literal, d: Document)
    requires AsciiLang(lang) && PlainPath(p) && PlainLiteral(lang, l)
    ensures AllReadable(Terms(lang, p + " == " + ShowLiteral(l)))
    ensures Eval(lang, p + " == " + ShowLiteral(l), d) <==> BsonEq(lang, OrNull(GetPath(d, p)), Meaning(lang, l))
  {
    hide Terms, ShowLiteral, AsciiLang, PlainPath, PlainLiteral, ParseLiteral, LoneQuote, BsonEq, Eval;
    ComparisonsAlone(lang, p, l);
    EvalAlone(lang, p + " == " + ShowLiteral(l), Compare(p, Eq, ShowLiteral(l)), d);
  }

  lemma ListedIs(lang: Lang, p: string, list: string, op: Op, d: Document)
    requires op.IsWord() && ReadableList(list)
    requires Terms(lang, p + (if op.In? then " in " else " not in ") + list) == [[Compare(p, op, list)]]
    ensures AllReadable([[Compare(p, op, list)]])
    ensures var found := exists v <- ParseList(lang, list) :: BsonEq(lang, OrNull(GetPath(d, p)), v);
            Eval(lang, p + (if op.In? then " in " else " not in ") + list, d) <==> if op.In? then found else !found
  {
    hide Terms, ParseList, BsonEq, ReadableList, Eval;
    EvalAlone(lang, p + (if op.In? then " in " else " not in ") + list, Compare(p, op, list), d);
  }

  lemma ListAlone(lang: Lang, p: string, ls: seq<Literal>, negated: bool)
    requires AsciiLang(lang) && PlainPath(p) && forall l <- ls :: PlainLiteral(lang, l)
    requires Unambiguous(Membership(p, negated, ls))
    ensures ReadableList(ShowList(ls))
    ensures Terms(lang, p + (if negated then " not in " else " in ") + ShowList(ls)) ==
            [[Compare(p, if negated then NotIn else In, ShowList(ls))]]
  {
    hide Terms, AsciiLang, PlainPath, PlainLiteral, ShowList, Spaced, ReadableList;
    Spelled(p, NullLiteral, ls);
    TermAlone(lang, Membership(p, negated, ls));
    ListReadsBack(lang, ls);
  }

  /** Being listed is being equal to one of the listed values; the negated operator is its negation. */
  lemma MembershipMeans(lang: Lang, p: string, ls: seq<Literal>, d: Document)
    requires AsciiLang(lang) && PlainPath(p) && forall l <- ls :: PlainLiteral(lang, l)
    ensures AllReadable(Terms(lang, p + " not in " + ShowList(ls)))
    ensures forall l <- ls :: AllReadable(Terms(lang, p + " == " + ShowLiteral(l)))
    ensures Eval(lang, p + " not in " + ShowList(ls), d) <==>
              !exists l <- ls :: Eval(lang, p + " == " + ShowLiteral(l), d)
    ensures Unambiguous(Membership(p, false, ls)) ==>
              AllReadable(Terms(lang, p + " in " + ShowList(ls))) &&
              (Eval(lang, p + " in " + ShowList(ls), d) <==>
               exists l <- ls :: Eval(lang, p + " == " + ShowLiteral(l), d))
  {
    hide Terms, ShowList, ShowLiteral, AsciiLang, PlainPath, PlainLiteral, ParseList, BsonEq, ReadableList, Eval;
    var left, list := OrNull(GetPath(d, p)), ShowList(ls);
    ListAlone(lang, p, ls, true);
    ListedIs(lang, p, list, NotIn, d);
    ListReadsBack(lang, ls);
    var vs := ParseList(lang, list);
    forall l <- ls
      ensures AllReadable(Terms(lang, p + " == " + ShowLiteral(l)))
      ensures Eval(lang, p + " == " + ShowLiteral(l), d) <==> BsonEq(lang, left, Meaning(lang, l))
    {
      EqualityIs(lang, p, l, d);
    }
    assert forall k | 0 <= k < |ls| :: ls[k] in ls && vs[k] in vs && vs[k] == Meaning(lang, ls[k]);
    if Unambiguous(Membership(p, false, ls)) {
      ListAlone(lang, p, ls, false);
      ListedIs(lang, p, list, In, d);
    }
  }

  /** The filters of the two list operators. */
  lemma MembershipFilters(lang: Lang, p: string, ls: seq<Literal>, ws: seq<Value>)
    requires AsciiLang(lang) && PlainPath(p) && forall l <- ls :: PlainLiteral(lang, l)
    requires |ws| == |ls| && forall k | 0 <= k < |ls| :: SentAs(lang, Meaning(lang, ls[k]), ws[k])
    ensures AllReadable(Terms(lang, p + " not in " + ShowList(ls)))
    ensures ToFilter(lang, p + " not in " + ShowList(ls)) == Single(p, Doc(Single("$nin", Arr(ws))))
    ensures Unambiguous(Membership(p, false, ls)) ==>
              AllReadable(Terms(lang, p + " in " + ShowList(ls))) &&
              ToFilter(lang, p + " in " + ShowList(ls)) == Single(p, Doc(Single("$in", Arr(ws))))
  {
    hide Terms, ShowList, AsciiLang, PlainPath, PlainLiteral, ParseList, ToFilter, ElementToFilter, ReadableList;
    var list := ShowList(ls);
    ListAlone(lang, p, ls, true);
    ListReadsBack(lang, ls);
    assert AllReadable([[Compare(p, NotIn, list)]]) && AllReadable([[Compare(p, In, list)]]);
    EvalAlone(lang, p + " not in " + list, Compare(p, NotIn, list), End);
    var vs := ParseList(lang, list);
    forall k | 0 <= k < |vs|
      ensures ElementToFilter(lang, vs[k]) == ws[k]
    {
      ElementSent(lang, vs[k], ws[k]);
    }
    assert ListToFilter(lang, vs) == ws;
    if Unambiguous(Membership(p, false, ls)) {
      ListAlone(lang, p, ls, false);
      EvalAlone(lang, p + " in " + list, Compare(p, In, list), End);
    }
  }

  lemma ElementSent(lang: Lang, v: Value, w: Value)
    requires SentAs(lang, v, w)
    ensures ElementToFilter(lang, v) == w
  {
    if v.Str? {
      var s := "'" + v.s + "'";
      QuotedIsTight(v.s);
      assert s[1..|s| - 1] == v.s;
    }
  }

  /** A bare field asks for a value that is there and is not null, false, zero or the empty text. */
  lemma BareMeans(lang: Lang, p: string, d: Document)
    requires AsciiLang(lang) && PlainPath(p) && Unambiguous(Flag(p))
    ensures AllReadable(Terms(lang, p))
    ensures Eval(lang, p, d) <==>
              GetPath(d, p) !in {None, Some(Null), Some(Boolean(false)), Some(Int32(0)), Some(Int64(0)),
                                 Some(Double(0.0)), Some(Str(""))}
    ensures ToFilter(lang, p) ==
              Single(p, Doc(Field("$exists", Boolean(true),
                                  Single("$nin", Arr([Null, Boolean(false), Int32(0), Str("")])))))
  {
    hide Terms, AsciiLang, PlainPath, Unambiguous, ToFilter, Eval, GetPath, Truthy;
    TermAlone(lang, Flag(p));
    EvalAlone(lang, p, Bare(p), d);
    TruthyMeans(GetPath(d, p));
  }

  lemma TruthyMeans(v: Option<Value>)
    ensures Truthy(v) <==>
              v !in {None, Some(Null), Some(Boolean(false)), Some(Int32(0)), Some(Int64(0)), Some(Double(0.0)),
                     Some(Str(""))}
  {
  }

  /** A word without quotes: it starts with a letter. */
  predicate Word(w: string) {
    w != "" && ('a' <= w[0] <= 'z' || 'A' <= w[0] <= 'Z') && forall c <- w :: AsciiWord(c) || c == '_'
  }

  /** Unquoted words are text, unless they are a keyword or name a number like "inf". */
  lemma WordReads(lang: Lang, w: string)
    requires Word(w) && w !in {"true", "false", "null"} && lang.parseF64(w) == None
    ensures Tight(w) && !LoneQuote(w) && ParseLiteral(lang, w) == Str(w)
  {
    assert w[|w| - 1] in w && w[0] in w;
    TrimTight(w);
  }

  lemma WordSplits(p: string, w: string)
    requires PlainPath(p) && Word(w)
    ensures var text := Spaced(p, "==", w);
            SplitTop(text, " or ") == [text] && SplitTop(text, " and ") == [text]
  {
    var text := Spaced(p, "==", w);
    hide FindFrom, SplitFrom, QuoteAfter;
    assert text == p + " == " + w && text[|p| + 1] == '=';
    assert forall i | 0 <= i < |p| :: text[i] == p[i] && p[i] in p;
    assert forall i | |p| + 4 <= i < |text| :: text[i] == w[i - |p| - 4] && text[i] in w;
    FindIsFirst(text, " or ", None);
    FindIsFirst(text, " and ", None);
    SplitAtFirst(text, " or ", None);
    SplitAtFirst(text, " and ", None);
    if FindFrom(text, " or ", None).Some? {
      StandsAt(text, " or ", FindFrom(text, " or ", None).value);
      assert false;
    }
    if FindFrom(text, " and ", None).Some? {
      StandsAt(text, " and ", FindFrom(text, " and ", None).value);
      assert false;
    }
  }

  lemma StandsAt(s: string, op: Token, i: nat)
    requires Occurs(s, op, None, i) && |op| > 1
    ensures i + |op| <= |s| && s[i] == op[0] && s[i + 1] == op[1] && s[i + |op| - 1] == op[|op| - 1]
  {
    var t := s[i..i + |op|];
    assert t[0] == s[i] && t[1] == s[i + 1] && t[|op| - 1] == s[i + |op| - 1];
  }

  lemma WordFound(lang: Lang, p: string, w: string)
    requires PlainPath(p) && Tight(w)
    ensures Dispatch(lang, Spaced(p, "==", w)) == Compare(p, Eq, w)
  {
    hide Dispatch;
    PathBlankAvoids(p, "==");
    var rest := "==" + (" " + w);
    ScanPast(p + " ", rest, "==", None);
    assert Spaced(p, "==", w) == p + " " + rest;
    FoundReadsBack(lang, p, Eq, w);
  }

  /** A field against an unquoted word, as in `status == active`. */
  lemma WordCompares(lang: Lang, p: string, w: string, d: Document)
    requires PlainPath(p) && Word(w) && w !in {"true", "false", "null"}
    requires lang.parseF64(w) == None && lang.parseRfc3339(w) == None
    ensures AllReadable(Terms(lang, p + " == " + w))
    ensures Eval(lang, p + " == " + w, d) <==> GetPath(d, p) == Some(Str(w))
    ensures ToFilter(lang, p + " == " + w) == Single(p, Str(w))
  {
    hide SplitFrom, Dispatch, ParseLiteral, LoneQuote, PlainPath;
    SpacedIs(p, "==", w);
    assert " " + "==" + " " == " == ";
    WordReads(lang, w);
    WordSplits(p, w);
    WordFound(lang, p, w);
    TightText(p, w);
    var text := p + " == " + w;
    assert Conjuncts(lang, text) == [Compare(p, Eq, w)];
    assert Terms(lang, text) == [[Compare(p, Eq, w)]];
    hide Terms;
    EvalAlone(lang, text, Compare(p, Eq, w), d);
  }

  lemma TightText(p: string, w: string)
    requires PlainPath(p) && Word(w)
    ensures Trim(p + " == " + w) == p + " == " + w
  {
    PathAvoids(p, "=");
    assert w[|w| - 1] in w;
    TrimTight(p + " == " + w);
  }

  // Connectives.

  /** These are the terms that a conjunction's own texts read as, one by one. */
  ghost predicate ReadSo(lang: Lang, conj: seq<Written>, read: seq<Term>) {
    |read| == |conj| && ReadableConj(read) &&
    forall k | 0 <= k < |conj| :: Terms(lang, Show(conj[k])) == [[read[k]]]
  }

  lemma EvalRead(lang: Lang, text: string, d: Document)
    requires AllReadable(Terms(lang, text))
    ensures Eval(lang, text, d) <==> EvalDnf(lang, Terms(lang, text), d)
    ensures ToFilter(lang, text) == FilterOr(lang, Terms(lang, text))
  {
  }

  lemma ConjReadSo(lang: Lang, conj: seq<Written>, read: seq<Term>)
    requires AsciiLang(lang) && PlainConj(lang, conj) && AllUnambiguous(conj) && Reads(read, conj)
    ensures ReadSo(lang, conj, read)
  {
    hide Terms, Show, AsciiLang, Plain, Unambiguous, Readable;
    forall k | 0 <= k < |conj|
      ensures Readable(read[k]) && Terms(lang, Show(conj[k])) == [[read[k]]]
    {
      TermAlone(lang, conj[k]);
      OperandsReadBack(lang, conj[k]);
    }
  }

  /** The terms read from a whole condition, each of which is what its own text reads as. */
  lemma ReadDnf(lang: Lang, dnf: seq<seq<Written>>)
    requires AsciiLang(lang) && PlainDnf(lang, dnf) && OrSafeDnf(dnf) && UnambiguousDnf(dnf)
    ensures var read := Terms(lang, ShowOr(dnf));
            AllReadable(read) && |read| == |dnf| && forall i | 0 <= i < |dnf| :: ReadSo(lang, dnf[i], read[i])
  {
    hide Terms, ShowOr, AsciiLang, PlainConj, AllUnambiguous, OrSafeDnf, Reads, ReadableConj;
    ConditionReadsBack(lang, dnf);
    var read := Terms(lang, ShowOr(dnf));
    forall i | 0 <= i < |dnf|
      ensures ReadSo(lang, dnf[i], read[i]) && ReadableConj(read[i])
    {
      ConjReadSo(lang, dnf[i], read[i]);
    }
    forall conj <- read
      ensures ReadableConj(conj)
    {
      var i :| 0 <= i < |read| && read[i] == conj;
    }
  }

  lemma ConjMeans(lang: Lang, conj: seq<Written>, read: seq<Term>, d: Document)
    requires ReadSo(lang, conj, read)
    ensures ReadableConj(read) && forall k | 0 <= k < |conj| :: AllReadable(Terms(lang, Show(conj[k])))
    ensures EvalConj(lang, read, d) <==> forall k | 0 <= k < |conj| :: Eval(lang, Show(conj[k]), d)
    ensures FilterAnd(lang, read) ==
            if |conj| == 1 then ToFilter(lang, Show(conj[0]))
            else Single("$and", Arr(seq(|conj|, k requires 0 <= k < |conj| => Doc(ToFilter(lang, Show(conj[k]))))))
  {
    hide Terms, Show, EvalTerm, FilterTerm, Readable, Eval, ToFilter;
    forall k | 0 <= k < |conj|
      ensures read[k] in read && AllReadable(Terms(lang, Show(conj[k])))
      ensures Eval(lang, Show(conj[k]), d) <==> EvalTerm(lang, read[k], d)
      ensures ToFilter(lang, Show(conj[k])) == FilterTerm(lang, read[k])
    {
      assert Readable(read[k]);
      assert AllReadable([[read[k]]]);
      EvalAlone(lang, Show(conj[k]), read[k], d);
    }
    if |conj| != 1 {
      assert seq(|conj|, k requires 0 <= k < |conj| => Doc(ToFilter(lang, Show(conj[k])))) ==
             seq(|read|, k requires 0 <= k < |read| => Doc(FilterTerm(lang, read[k])));
    }
  }

  /** All terms of a conjunction hold. */
  ghost predicate AllHold(lang: Lang, conj: seq<Written>, d: Document) {
    forall k | 0 <= k < |conj| :: AllReadable(Terms(lang, Show(conj[k]))) && Eval(lang, Show(conj[k]), d)
  }

  /** An or-of-ands holds where all terms of one of its conjunctions do. */
  lemma ConnectivesMean(lang: Lang, dnf: seq<seq<Written>>, d: Document)
    requires AsciiLang(lang) && PlainDnf(lang, dnf) && OrSafeDnf(dnf) && UnambiguousDnf(dnf)
    ensures AllReadable(Terms(lang, ShowOr(dnf)))
    ensures forall i, k | 0 <= i < |dnf| && 0 <= k < |dnf[i]| :: AllReadable(Terms(lang, Show(dnf[i][k])))
    ensures Eval(lang, ShowOr(dnf), d) <==> exists i | 0 <= i < |dnf| :: AllHold(lang, dnf[i], d)
  {
    ReadDnf(lang, dnf);
    hide Terms, ShowOr, Show, AsciiLang, PlainDnf, OrSafeDnf, UnambiguousDnf, ReadSo, ReadableConj, Eval, EvalConj;
    var read := Terms(lang, ShowOr(dnf));
    EvalRead(lang, ShowOr(dnf), d);
    forall i | 0 <= i < |dnf|
      ensures read[i] in read && ReadableConj(read[i])
      ensures forall k | 0 <= k < |dnf[i]| :: AllReadable(Terms(lang, Show(dnf[i][k])))
      ensures EvalConj(lang, read[i], d) <==> AllHold(lang, dnf[i], d)
    {
      ConjMeans(lang, dnf[i], read[i], d);
    }
    hide AllHold;
    if i :| 0 <= i < |dnf| && AllHold(lang, dnf[i], d) {
      assert read[i] in read;
    }
    if Eval(lang, ShowOr(dnf), d) {
      var conj :| conj in read && EvalConj(lang, conj, d);
      var i :| 0 <= i < |read| && read[i] == conj;
    }
  }

  /** The filter of a conjunction, and of an or of conjunctions, from those of their terms. */
  lemma ConnectiveFilters(lang: Lang, dnf: seq<seq<Written>>, ands: seq<Document>)
    requires AsciiLang(lang) && PlainDnf(lang, dnf) && OrSafeDnf(dnf) && UnambiguousDnf(dnf)
    requires |ands| == |dnf| && forall i | 0 <= i < |dnf| :: IsAnd(lang, dnf[i], ands[i])
    ensures AllReadable(Terms(lang, ShowOr(dnf)))
    ensures ToFilter(lang, ShowOr(dnf)) ==
            if |dnf| == 1 then ands[0]
            else Single("$or", Arr(seq(|dnf|, i requires 0 <= i < |dnf| => Doc(ands[i]))))
  {
    ReadDnf(lang, dnf);
    hide Terms, ShowOr, AsciiLang, PlainDnf, OrSafeDnf, UnambiguousDnf, ReadSo, ReadableConj, ToFilter, FilterAnd;
    hide IsAnd, FilterOr;
    var read := Terms(lang, ShowOr(dnf));
    EvalRead(lang, ShowOr(dnf), End);
    forall i | 0 <= i < |dnf|
      ensures read[i] in read && ReadableConj(read[i]) && FilterAnd(lang, read[i]) == ands[i]
    {
      AndIs(lang, dnf[i], read[i], ands[i]);
    }
    OrIs(lang, read, ands);
  }

  lemma OrIs(lang: Lang, read: seq<seq<Term>>, ands: seq<Document>)
    requires AllReadable(read) && |ands| == |read|
    requires forall i | 0 <= i < |read| :: ReadableConj(read[i]) && FilterAnd(lang, read[i]) == ands[i]
    ensures FilterOr(lang, read) ==
            if |read| == 1 then ands[0] else Single("$or", Arr(seq(|read|, i requires 0 <= i < |read| => Doc(ands[i]))))
  {
    hide FilterAnd, ReadableConj;
    if |read| != 1 {
      assert seq(|read|, i requires 0 <= i < |read| => Doc(ands[i])) ==
             seq(|read|, i requires 0 <= i < |read| => Doc(FilterAnd(lang, read[i])));
    }
  }

  /** The filter of one term, or the `$and` of several. */
  ghost predicate IsAnd(lang: Lang, conj: seq<Written>, f: Document) {
    (forall k | 0 <= k < |conj| :: AllReadable(Terms(lang, Show(conj[k])))) &&
    f == if |conj| == 1 then ToFilter(lang, Show(conj[0]))
         else Single("$and", Arr(seq(|conj|, k requires 0 <= k < |conj| => Doc(ToFilter(lang, Show(conj[k]))))))
  }

  lemma AndIs(lang: Lang, conj: seq<Written>, read: seq<Term>, f: Document)
    requires ReadSo(lang, conj, read) && IsAnd(lang, conj, f)
    ensures ReadableConj(read) && FilterAnd(lang, read) == f
  {
    hide ReadSo, FilterAnd, ToFilter, Terms, Show, ReadableConj;
    ConjMeans(lang, conj, read, End);
  }

  /** As spelled: "and" binds closer than "or". */
  lemma OrOfAnd(lang: Lang, a: Written, b: Written, c: Written, d: Document)
    requires AsciiLang(lang) && Plain(lang, a) && Plain(lang, b) && Plain(lang, c) && c.path != "or"
    requires Unambiguous(a) && Unambiguous(b) && Unambiguous(c)
    ensures var text := Show(a) + " or " + Show(b) + " and " + Show(c);
            AllReadable(Terms(lang, text)) && AllReadable(Terms(lang, Show(a))) &&
            AllReadable(Terms(lang, Show(b))) && AllReadable(Terms(lang, Show(c))) &&
            (Eval(lang, text, d) <==>
             Eval(lang, Show(a), d) || (Eval(lang, Show(b), d) && Eval(lang, Show(c), d)))
  {
    hide Terms, Show, AsciiLang, Plain, Unambiguous, Eval;
    var dnf := [[a], [b, c]];
    assert dnf[0] == [a] && dnf[1] == [b, c] && dnf[1..] == [[b, c]] && [b, c][1..] == [c];
    assert dnf[0][0] == a && dnf[1][0] == b && dnf[1][1] == c;
    var x, y, z := Show(a), Show(b), Show(c);
    assert ShowAnd([b, c]) == y + " and " + z;
    assert ShowOr([[b, c]]) == ShowAnd([b, c]) && ShowOr(dnf) == x + " or " + ShowOr([[b, c]]);
    assert x + " or " + (y + " and " + z) == x + " or " + y + " and " + z;
    ConnectivesMean(lang, dnf, d);
  }
}
