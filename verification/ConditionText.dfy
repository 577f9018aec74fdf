/**
 Writing conditions out as text and reading them back. A term over a dotted field path reads
 back as itself exactly when its path does not spell a word operator; for such terms, whole
 or-of-and conditions and all their literals are recovered.
 */
module ConditionText {
  import opened Wrappers
  import opened Paths
  import opened Bson
  import opened QuoteScan
  import opened Text
  import opened Condition

  datatype Literal =
    | Quoted(s: string)
    | Integer(i: int)
    | Decimal(text: string)
    | Bool(b: bool)
    | NullLiteral

  datatype Written =
    | Comparison(path: string, op: Op, literal: Literal)
    | Membership(path: string, negated: bool, literals: seq<Literal>)
    | Flag(path: string)

  predicate AsciiWord(c: char) {
    'a' <= c <= 'z' || 'A' <= c <= 'Z' || '0' <= c <= '9'
  }

  /** What is assumed of the library's character class: it is right on ASCII. */
  ghost predicate AsciiLang(lang: Lang) {
    forall c: char | c as int < 128 :: lang.alnum(c) <==> AsciiWord(c)
  }

  predicate PathChar(c: char) {
    AsciiWord(c) || c == '_' || c == '.'
  }

  predicate PlainPath(path: string) {
    path != "" && forall c <- path :: PathChar(c)
  }

  predicate DecimalChar(c: char) {
    '0' <= c <= '9' || c == '+' || c == '-' || c == '.' || c == 'e' || c == 'E'
  }

  predicate PlainLiteral(lang: Lang, l: Literal) {
    match l
    case Quoted(s) => '\'' !in s || '"' !in s
    case Integer(i) => I64_MIN <= i <= I64_MAX
    case Decimal(t) => t != "" && (forall c <- t :: DecimalChar(c)) && ParseI64(t) == None && lang.parseF64(t).Some?
    case _ => true
  }

  function Meaning(lang: Lang, l: Literal): Value
    requires PlainLiteral(lang, l)
  {
    match l
    case Quoted(s) => Str(s)
    case Integer(i) => Int64(i)
    case Decimal(t) => Double(lang.parseF64(t).value)
    case Bool(b) => Boolean(b)
    case NullLiteral => Null
  }

  function QuoteFor(s: string): char {
    if '\'' in s then '"' else '\''
  }

  function ShowLiteral(l: Literal): string {
    match l
    case Quoted(s) => [QuoteFor(s)] + s + [QuoteFor(s)]
    case Integer(i) => ShowInt(i)
    case Decimal(t) => t
    case Bool(b) => if b then "true" else "false"
    case NullLiteral => "null"
  }

  function ShowItems(ls: seq<Literal>): string {
    if ls == [] then ""
    else if |ls| == 1 then ShowLiteral(ls[0])
    else ShowLiteral(ls[0]) + "," + (" " + ShowItems(ls[1..]))
  }

  function ShowList(ls: seq<Literal>): string {
    "[" + ShowItems(ls) + "]"
  }

  function OpOf(t: Written): Op
    requires !t.Flag?
  {
    if t.Comparison? then t.op else if t.negated then NotIn else In
  }

  function RightOf(t: Written): string
    requires !t.Flag?
  {
    if t.Comparison? then ShowLiteral(t.literal) else ShowList(t.literals)
  }

  function Spaced(path: string, sym: string, right: string): string {
    path + " " + (sym + (" " + right))
  }

  function Show(t: Written): string {
    if t.Flag? then t.path else Spaced(t.path, OpOf(t).Symbol(), RightOf(t))
  }

  predicate Plain(lang: Lang, t: Written) {
    PlainPath(t.path) &&
    match t
    case Comparison(_, op, l) => !op.IsWord() && PlainLiteral(lang, l)
    case Membership(_, _, ls) => forall l <- ls :: PlainLiteral(lang, l)
    case Flag(_) => true
  }

  /** The term a written term is meant to read back as. */
  function Intended(t: Written): Term {
    if t.Flag? then Bare(t.path) else Compare(t.path, OpOf(t), RightOf(t))
  }

  function Last(p: Segments): string {
    p[|p| - 1]
  }

  /** The path does not spell the operator that is searched for in it. */
  predicate Unambiguous(t: Written) {
    match t
    case Comparison(_, _, _) => true
    case Membership(path, negated, _) => negated || ("in" !in Split(path) && Last(Split(path)) != "not")
    case Flag(path) => "in" !in Split(path)
  }

  // Text in which a token cannot be found, also not across its end.

  predicate Compatible(s: string, op: Token) {
    forall k | 0 <= k < |s| && k < |op| :: s[k] == op[k]
  }

  predicate Avoids(s: string, op: Token, q: Option<char>)
    decreases |s|
  {
    if s == "" then q == None
    else (q == None ==> !Compatible(s, op)) && Avoids(s[1..], op, NextQuote(q, s[0]))
  }

  lemma IncompatibleExtends(s: string, b: string, op: Token)
    requires !Compatible(s, op)
    ensures !Compatible(s + b, op)
  {
    var k :| 0 <= k < |s| && k < |op| && s[k] != op[k];
    assert (s + b)[k] != op[k];
  }

  lemma {:induction false} AvoidsConcat(a: string, b: string, op: Token, q: Option<char>)
    requires Avoids(a, op, q) && Avoids(b, op, None)
    ensures Avoids(a + b, op, q)
    decreases |a|
  {
    if a == "" {
      assert a + b == b;
    } else {
      assert (a + b)[1..] == a[1..] + b;
      AvoidsConcat(a[1..], b, op, NextQuote(q, a[0]));
      if q == None {
        IncompatibleExtends(a, b, op);
      }
    }
  }

  /** The scans walk over a prefix that avoids the token without noticing it. */
  lemma {:induction false} ScanPast(a: string, b: string, op: Token, q: Option<char>)
    requires Avoids(a, op, q)
    ensures FindFrom(a + b, op, q) == Shift(FindFrom(b, op, None), |a|)
    ensures SplitFrom(a + b, op, q) == Prepend(a, SplitFrom(b, op, None))
    decreases |a|
  {
    if a == "" {
      assert a + b == b;
      PrependNothing(SplitFrom(b, op, None));
    } else {
      var q' := NextQuote(q, a[0]);
      assert (a + b)[1..] == a[1..] + b;
      ScanPast(a[1..], b, op, q');
      if q == None {
        IncompatibleExtends(a, b, op);
      }
      PrependTwice([a[0]], a[1..], SplitFrom(b, op, None));
      assert [a[0]] + a[1..] == a;
    }
  }

  lemma AvoidsIsAbsent(a: string, op: Token)
    requires Avoids(a, op, None)
    ensures FindOp(a, op) == None
    ensures SplitTop(a, op) == [a]
  {
    ScanPast(a, "", op, None);
    assert a + "" == a;
  }

  lemma SplitAfter(a: string, b: string, sep: Token)
    requires Avoids(a, sep, None)
    ensures SplitTop(a + sep + b, sep) == [a] + SplitTop(b, sep)
  {
    assert a + sep + b == a + (sep + b);
    ScanPast(a, sep + b, sep, None);
    assert (sep + b)[|sep|..] == b;
    assert a + "" == a;
    var after := SplitTop(b, sep);
    assert ([""] + after)[1..] == after;
  }

  lemma {:induction false} AvoidsNoWord(alnum: CharClass, a: string, op: Token, q: Option<char>, prev: Option<char>)
    requires Avoids(a, op, q)
    ensures FindWordFrom(alnum, a, op, q, prev) == None
    decreases |a|
  {
    if a != "" {
      AvoidsNoWord(alnum, a[1..], op, NextQuote(q, a[0]), Some(a[0]));
    }
  }

  // What the pieces of a rendered term avoid.

  lemma {:induction false} WordAvoids(w: string, op: Token)
    requires forall c <- w :: !IsQuote(c) && c != op[0]
    ensures Avoids(w, op, None)
  {
    if w != "" {
      assert w[0] in w;
      assert forall c <- w[1..] :: c in w;
      WordAvoids(w[1..], op);
    }
  }

  /** A first character that could open the token, with a second one that breaks it off. */
  lemma PairAvoids(x: char, w: string, op: Token)
    requires w != "" && !IsQuote(x) && (|op| == 1 ==> op[0] != x) && (|op| > 1 ==> op[0] != x || op[1] != w[0])
    requires Avoids(w, op, None)
    ensures Avoids([x] + w, op, None)
  {
    var s := [x] + w;
    assert s[1..] == w;
    assert s[0] == x && s[1] == w[0];
  }

  lemma {:induction false} QuotedBodyAvoids(c: char, s: string, op: Token)
    requires IsQuote(c) && c !in s
    ensures Avoids(s + [c], op, Some(c))
  {
    var t := s + [c];
    if s == "" {
      assert t[1..] == "";
    } else {
      assert s[0] in s;
      assert forall x <- s[1..] :: x in s;
      assert t[1..] == s[1..] + [c];
      QuotedBodyAvoids(c, s[1..], op);
    }
  }

  lemma QuotedAvoids(c: char, s: string, op: Token)
    requires IsQuote(c) && c !in s
    ensures Avoids([c] + s + [c], op, None)
  {
    var t := [c] + s + [c];
    QuotedBodyAvoids(c, s, op);
    assert t[1..] == s + [c];
    assert op[0] in op && t[0] == c;
    assert !Compatible(t, op);
  }

  /** Literals hold no blank, bracket, comma, comparison sign, 'i' or 'o' outside their quotes. */
  predicate LiteralChar(c: char) {
    DecimalChar(c) || c == 't' || c == 'r' || c == 'u' || c == 'f' || c == 'a' || c == 'l' || c == 's' || c == 'n'
  }

  predicate LiteralStart(c: char) {
    IsQuote(c) || DecimalChar(c) || c == 't' || c == 'f' || c == 'n'
  }

  lemma ShowIntChars(i: int)
    ensures forall c <- ShowInt(i) :: IsDigit(c) || c == '-'
  {
  }

  lemma LiteralShape(lang: Lang, l: Literal)
    requires PlainLiteral(lang, l)
    ensures var s := ShowLiteral(l); s != "" && Tight(s) && LiteralStart(s[0])
    ensures var s := ShowLiteral(l); !LoneQuote(s) && (!l.Quoted? ==> forall c <- s :: LiteralChar(c))
  {
    var s := ShowLiteral(l);
    if l.Integer? {
      ShowIntChars(l.i);
    }
    assert s[0] in s && s[|s| - 1] in s;
    TrimTight(s);
  }

  lemma QuotedReadsBack(lang: Lang, t: string)
    requires PlainLiteral(lang, Quoted(t))
    ensures !LoneQuote(ShowLiteral(Quoted(t))) && ParseLiteral(lang, ShowLiteral(Quoted(t))) == Str(t)
  {
    hide ParseI64;
    var s := ShowLiteral(Quoted(t));
    TrimTight(s);
    assert s[1..|s| - 1] == t;
  }

  /** What the literal parser makes of a tight text that is neither quoted nor a keyword. */
  lemma NumeralReads(lang: Lang, s: string)
    requires s != "" && Tight(s) && !IsQuote(s[0]) && s[0] != 't' && s[0] != 'f' && s[0] != 'n'
    ensures !LoneQuote(s)
    ensures ParseLiteral(lang, s) ==
            match ParseI64(s)
            case Some(i) => Int64(i)
            case None => (match lang.parseF64(s) case Some(f) => Double(f) case None => Str(s))
  {
    hide ParseI64;
    TrimTight(s);
  }

  lemma KeywordsRead(lang: Lang)
    ensures !LoneQuote("true") && !LoneQuote("false") && !LoneQuote("null")
    ensures ParseLiteral(lang, "true") == Boolean(true)
    ensures ParseLiteral(lang, "false") == Boolean(false)
    ensures ParseLiteral(lang, "null") == Null
  {
    hide ParseI64;
    TrimTight("true");
    TrimTight("false");
    TrimTight("null");
  }

  /** Every literal reads back as its value. */
  lemma LiteralReadsBack(lang: Lang, l: Literal)
    requires PlainLiteral(lang, l)
    ensures !LoneQuote(ShowLiteral(l)) && ParseLiteral(lang, ShowLiteral(l)) == Meaning(lang, l)
  {
    hide ParseLiteral, ParseI64, LoneQuote, Tight, ShowInt;
    LiteralShape(lang, l);
    match l {
      case Quoted(t) => QuotedReadsBack(lang, t);
      case Integer(i) =>
        ParseShow(i);
        ShowIntChars(i);
        assert ShowInt(i)[0] in ShowInt(i);
        NumeralReads(lang, ShowInt(i));
      case Decimal(t) =>
        assert t[0] in t && DecimalChar(t[0]);
        NumeralReads(lang, t);
      case Bool(_) => KeywordsRead(lang);
      case NullLiteral => KeywordsRead(lang);
    }
  }

  /** A token that opens no bare literal: its first character stands in none, or it starts like "no". */
  predicate OpensNoLiteral(op: Token) {
    !LiteralChar(op[0]) || (op[0] == 'n' && |op| > 1 && op[1] == 'o')
  }

  lemma KeywordsAvoid(op: Token)
    requires OpensNoLiteral(op)
    ensures Avoids("true", op, None) && Avoids("false", op, None) && Avoids("null", op, None)
  {
    hide Avoids;
    WordAvoids("true", op);
    WordAvoids("false", op);
    WordAvoids("ull", op);
    PairAvoids('n', "ull", op);
    assert "null" == ['n'] + "ull";
  }

  lemma LiteralAvoids(lang: Lang, l: Literal, op: Token)
    requires PlainLiteral(lang, l) && OpensNoLiteral(op)
    ensures Avoids(ShowLiteral(l), op, None)
  {
    hide Avoids, ShowInt, ParseI64;
    match l {
      case Quoted(t) => QuotedAvoids(QuoteFor(t), t, op);
      case Integer(i) =>
        ShowIntChars(i);
        WordAvoids(ShowInt(i), op);
      case Decimal(t) => WordAvoids(t, op);
      case _ => KeywordsAvoid(op);
    }
  }

  // Lists.

  /** A token no rendered list can hold outside quotes. */
  predicate Foreign(op: Token) {
    OpensNoLiteral(op) &&
    op[0] != ',' && op[0] != '[' && op[0] != ']' && (op[0] == ' ' ==> |op| > 1 && !LiteralStart(op[1]))
  }

  lemma {:induction false} ItemsAvoid(lang: Lang, ls: seq<Literal>, op: Token)
    requires (forall l <- ls :: PlainLiteral(lang, l)) && Foreign(op)
    ensures Avoids(ShowItems(ls), op, None)
    ensures ls != [] ==> ShowItems(ls) != "" && LiteralStart(ShowItems(ls)[0])
  {
    if ls != [] {
      LiteralAvoids(lang, ls[0], op);
      LiteralShape(lang, ls[0]);
      if |ls| > 1 {
        var rest := ShowItems(ls[1..]);
        ItemsAvoid(lang, ls[1..], op);
        WordAvoids(",", op);
        AvoidsConcat(ShowLiteral(ls[0]), ",", op, None);
        AvoidsConcat(ShowLiteral(ls[0]) + ",", " " + rest, op, None);
      }
    }
  }

  lemma ListAvoids(lang: Lang, ls: seq<Literal>, op: Token)
    requires (forall l <- ls :: PlainLiteral(lang, l)) && Foreign(op)
    ensures Avoids(ShowList(ls), op, None)
  {
    ItemsAvoid(lang, ls, op);
    WordAvoids("[", op);
    WordAvoids("]", op);
    AvoidsConcat("[", ShowItems(ls), op, None);
    AvoidsConcat("[" + ShowItems(ls), "]", op, None);
  }

  lemma PaddedLiteralAvoids(lang: Lang, l: Literal, pad: string)
    requires PlainLiteral(lang, l) && (pad == "" || pad == " ")
    ensures Avoids(pad + ShowLiteral(l), ",", None)
  {
    LiteralAvoids(lang, l, ",");
    WordAvoids(pad, ",");
    AvoidsConcat(pad, ShowLiteral(l), ",", None);
  }

  predicate PiecesOf(pieces: seq<string>, ls: seq<Literal>, pad: string) {
    |pieces| == |ls| > 0 && pieces[0] == pad + ShowLiteral(ls[0]) &&
    forall k | 1 <= k < |ls| :: pieces[k] == " " + ShowLiteral(ls[k])
  }

  lemma PiecesStep(later: seq<string>, ls: seq<Literal>, pad: string)
    requires |ls| > 1 && PiecesOf(later, ls[1..], " ")
    ensures PiecesOf([pad + ShowLiteral(ls[0])] + later, ls, pad)
  {
    hide ShowLiteral;
    var pieces := [pad + ShowLiteral(ls[0])] + later;
    forall k | 1 <= k < |ls|
      ensures pieces[k] == " " + ShowLiteral(ls[k])
    {
      assert ls[k] == ls[1..][k - 1] && pieces[k] == later[k - 1];
    }
  }

  lemma {:induction false} ItemsSplit(lang: Lang, ls: seq<Literal>, pad: string)
    requires ls != [] && (forall l <- ls :: PlainLiteral(lang, l)) && (pad == "" || pad == " ")
    ensures PiecesOf(SplitTop(pad + ShowItems(ls), ","), ls, pad)
  {
    hide SplitFrom, ShowLiteral, Avoids, PlainLiteral;
    var first := pad + ShowLiteral(ls[0]);
    PaddedLiteralAvoids(lang, ls[0], pad);
    if |ls| == 1 {
      AvoidsIsAbsent(first, ",");
    } else {
      var rest := " " + ShowItems(ls[1..]);
      ItemsSplit(lang, ls[1..], " ");
      SplitAfter(first, rest, ",");
      assert pad + ShowItems(ls) == first + "," + rest;
      PiecesStep(SplitTop(rest, ","), ls, pad);
    }
  }

  lemma ItemsTight(lang: Lang, ls: seq<Literal>)
    requires ls != [] && forall l <- ls :: PlainLiteral(lang, l)
    ensures ShowItems(ls) != "" && Tight(ShowItems(ls))
  {
    LiteralShape(lang, ls[0]);
    if |ls| > 1 {
      ItemsTight(lang, ls[1..]);
    }
  }

  lemma ListInterior(lang: Lang, ls: seq<Literal>)
    requires forall l <- ls :: PlainLiteral(lang, l)
    ensures ListPieces(ShowList(ls)) == if ls == [] then [] else SplitTop(ShowItems(ls), ",")
  {
    var s := ShowList(ls);
    TrimTight(s);
    assert s[1..|s| - 1] == ShowItems(ls);
    if ls != [] {
      ItemsTight(lang, ls);
      TrimTight(ShowItems(ls));
    }
  }

  lemma ListPiecesReadBack(lang: Lang, ls: seq<Literal>)
    requires forall l <- ls :: PlainLiteral(lang, l)
    ensures var pieces := ListPieces(ShowList(ls));
            |pieces| == |ls| && forall k | 0 <= k < |ls| :: Trim(pieces[k]) == ShowLiteral(ls[k])
  {
    hide ListPieces, ShowLiteral, SplitFrom;
    ListInterior(lang, ls);
    if ls != [] {
      ItemsSplit(lang, ls, "");
      assert "" + ShowItems(ls) == ShowItems(ls);
      var pieces := SplitTop(ShowItems(ls), ",");
      forall k | 0 <= k < |ls|
        ensures Trim(pieces[k]) == ShowLiteral(ls[k])
      {
        var lit := ShowLiteral(ls[k]);
        assert pieces[k] == lit || pieces[k] == " " + lit by {
          assert "" + lit == lit;
        }
        LiteralShape(lang, ls[k]);
        TrimPadded(lit);
        TrimTight(lit);
      }
    }
  }

  /** A rendered list reads back as the values of its literals, in order. */
  lemma ListReadsBack(lang: Lang, ls: seq<Literal>)
    requires forall l <- ls :: PlainLiteral(lang, l)
    ensures ReadableList(ShowList(ls))
    ensures var vs := ParseList(lang, ShowList(ls));
            |vs| == |ls| && forall k | 0 <= k < |ls| :: vs[k] == Meaning(lang, ls[k])
  {
    ListPiecesReadBack(lang, ls);
    forall k | 0 <= k < |ls|
      ensures !LoneQuote(ShowLiteral(ls[k])) && ParseLiteral(lang, ShowLiteral(ls[k])) == Meaning(lang, ls[k])
    {
      LiteralReadsBack(lang, ls[k]);
    }
  }

  // Terms inside a whole condition.

  lemma PathAvoids(path: string, op: Token)
    requires PlainPath(path) && !PathChar(op[0])
    ensures Avoids(path, op, None) && Tight(path)
  {
    assert path[0] in path && path[|path| - 1] in path;
    WordAvoids(path, op);
  }

  lemma Blanked(w: string, op: Token)
    requires w != "" && Avoids(w, op, None) && op[0] == ' ' && |op| > 1 && op[1] != w[0]
    ensures Avoids(" " + w, op, None)
  {
    PairAvoids(' ', w, op);
    assert [' '] + w == " " + w;
  }

  /** What the two separators share: a blank, and then a letter that opens no literal and no operator. */
  predicate IsSeparator(sep: Token) {
    |sep| > 1 && sep[0] == ' ' && (sep[1] == 'o' || sep[1] == 'a')
  }

  /** Texts that avoid a separator can be put side by side, one blank apart. */
  lemma SideBySide(a: string, b: string, sep: Token)
    requires Avoids(a, sep, None) && Avoids(b, sep, None) && IsSeparator(sep)
    requires b != "" && b[0] != 'o' && b[0] != 'a'
    ensures Avoids(a + " " + b, sep, None)
  {
    Blanked(b, sep);
    AvoidsConcat(a, " " + b, sep, None);
    assert a + " " + b == a + (" " + b);
  }

  lemma SymbolAvoidsSeparator(op: Op, sep: Token)
    requires IsSeparator(sep)
    ensures var sym := op.Symbol(); Avoids(sym, sep, None) && sym[0] != 'o' && sym[0] != 'a'
  {
    if op.NotIn? {
      WordAvoids("not", sep);
      WordAvoids("in", sep);
      SideBySide("not", "in", sep);
      assert "not" + " " + "in" == "not in";
    } else {
      WordAvoids(op.Symbol(), sep);
    }
  }

  /** The right-hand side of a rendered term, as the scans see it. */
  lemma RightShape(lang: Lang, t: Written, op: Token)
    requires Plain(lang, t) && !t.Flag? && Foreign(op)
    ensures var right := RightOf(t);
            right != "" && Tight(right) && Avoids(right, op, None) && (LiteralStart(right[0]) || right[0] == '[')
  {
    if t.Comparison? {
      LiteralShape(lang, t.literal);
      LiteralAvoids(lang, t.literal, op);
    } else {
      ListAvoids(lang, t.literals, op);
    }
  }

  lemma ShowTight(lang: Lang, t: Written)
    requires Plain(lang, t)
    ensures Show(t) != "" && Tight(Show(t))
  {
    PathAvoids(t.path, "=");
    if !t.Flag? {
      RightShape(lang, t, "=");
      var text, right := Show(t), RightOf(t);
      assert text[0] == t.path[0] && text[|text| - 1] == right[|right| - 1];
    }
  }

  /** No rendered term holds a separator, so the splits fall between terms only. */
  lemma TermAvoids(lang: Lang, t: Written, sep: Token)
    requires Plain(lang, t) && IsSeparator(sep)
    ensures Avoids(Show(t), sep, None)
  {
    hide Avoids, RightOf;
    PathAvoids(t.path, sep);
    if !t.Flag? {
      var sym, right := OpOf(t).Symbol(), RightOf(t);
      SymbolAvoidsSeparator(OpOf(t), sep);
      RightShape(lang, t, sep);
      SideBySide(sym, right, sep);
      assert sym + (" " + right) == sym + " " + right;
      SideBySide(t.path, sym + " " + right, sep);
    }
  }

  // Finding the operator.

  lemma {:induction false} DispatchFirst(lang: Lang, term: string, ops: seq<Op>, k: nat)
    requires k < |ops| && (forall j | 0 <= j < k :: Find(lang, term, ops[j]) == None)
    requires Find(lang, term, ops[k]).Some?
    ensures var i := Find(lang, term, ops[k]).value;
            i + |ops[k].Symbol()| <= |term| &&
            Dispatch(lang, term, ops) == Compare(Trim(term[..i]), ops[k], Trim(term[i + |ops[k].Symbol()|..]))
    decreases |ops|
  {
    hide Find;
    if k == 0 {
      FoundFits(lang, term, ops[0]);
    } else {
      assert Find(lang, term, ops[0]) == None;
      DispatchFirst(lang, term, ops[1..], k - 1);
    }
  }

  lemma {:induction false} DispatchNone(lang: Lang, term: string, ops: seq<Op>)
    requires forall op <- ops :: Find(lang, term, op) == None
    ensures Dispatch(lang, term, ops) == Bare(Trim(term))
    decreases |ops|
  {
    hide Find;
    if ops != [] {
      DispatchNone(lang, term, ops[1..]);
    }
  }

  function Rank(op: Op): nat {
    match op
    case Eq => 0 case Ne => 1 case Ge => 2 case Le => 3 case Gt => 4 case Lt => 5 case NotIn => 6 case In => 7
  }

  lemma RankIsSearchOrder(op: Op)
    ensures Rank(op) < |SEARCH_ORDER| && SEARCH_ORDER[Rank(op)] == op
  {
  }

  lemma SymbolAvoids(op: Op, tail: string, earlier: Op)
    requires !op.IsWord() && Rank(earlier) < Rank(op)
    requires tail != "" && tail[0] == ' ' && Avoids(tail, earlier.Symbol(), None)
    ensures Avoids(op.Symbol() + tail, earlier.Symbol(), None)
  {
    var sym, e := op.Symbol(), earlier.Symbol();
    if |sym| == 1 {
      PairAvoids(sym[0], tail, e);
      assert sym + tail == [sym[0]] + tail;
    } else {
      PairAvoids(sym[1], tail, e);
      PairAvoids(sym[0], [sym[1]] + tail, e);
      assert sym + tail == [sym[0]] + ([sym[1]] + tail);
    }
  }

  lemma PathBlankAvoids(path: string, op: Token)
    requires PlainPath(path) && !PathChar(op[0]) && op[0] != ' '
    ensures Avoids(path + " ", op, None)
  {
    PathAvoids(path, op);
    WordAvoids(" ", op);
    AvoidsConcat(path, " ", op, None);
  }

  lemma ComparisonSymbol(op: Op)
    requires !op.IsWord()
    ensures var sym := op.Symbol(); Foreign(sym) && !PathChar(sym[0]) && sym[0] != ' '
  {
  }

  lemma BlankRightAvoids(right: string, op: Token)
    requires right != "" && Avoids(right, op, None) && op[0] != ' '
    ensures Avoids(" " + right, op, None)
  {
    PairAvoids(' ', right, op);
    assert [' '] + right == " " + right;
  }

  /** Operators searched for earlier are not in a comparison, not even inside its own symbol. */
  lemma ComparisonAvoids(lang: Lang, t: Written, earlier: Op)
    requires Plain(lang, t) && t.Comparison? && Rank(earlier) < Rank(t.op)
    ensures Avoids(Show(t), earlier.Symbol(), None)
  {
    var op, right := earlier.Symbol(), RightOf(t);
    ComparisonSymbol(earlier);
    RightShape(lang, t, op);
    BlankRightAvoids(right, op);
    PathBlankAvoids(t.path, op);
    SymbolAvoids(t.op, " " + right, earlier);
    AvoidsConcat(t.path + " ", t.op.Symbol() + (" " + right), op, None);
  }

  lemma SidesReadBack(path: string, sym: string, right: string)
    requires PlainPath(path) && Tight(right)
    ensures var text, at := Spaced(path, sym, right), |path| + 1;
            at + |sym| <= |text| && Trim(text[..at]) == path && Trim(text[at + |sym|..]) == right
  {
    var text := Spaced(path, sym, right);
    assert text[..|path| + 1] == path + " ";
    assert text[|path| + 1 + |sym|..] == " " + right;
    PathAvoids(path, "=");
    TrimPadded(path);
    TrimPadded(right);
  }

  /** A term whose operator is found behind its path, and no earlier operator anywhere, reads back. */
  lemma FoundReadsBack(lang: Lang, path: string, op: Op, right: string)
    requires PlainPath(path) && Tight(right)
    requires var text := Spaced(path, op.Symbol(), right);
             Find(lang, text, op) == Some(|path| + 1) &&
             forall j | 0 <= j < Rank(op) :: Find(lang, text, SEARCH_ORDER[j]) == None
    ensures Dispatch(lang, Spaced(path, op.Symbol(), right)) == Compare(path, op, right)
  {
    hide Dispatch, Find, Spaced;
    RankIsSearchOrder(op);
    DispatchFirst(lang, Spaced(path, op.Symbol(), right), SEARCH_ORDER, Rank(op));
    SidesReadBack(path, op.Symbol(), right);
  }

  lemma ComparisonReadsBack(lang: Lang, t: Written)
    requires Plain(lang, t) && t.Comparison?
    ensures Dispatch(lang, Show(t)) == Intended(t)
  {
    hide Dispatch;
    var op, right, text := t.op, RightOf(t), Show(t);
    forall j | 0 <= j < Rank(op)
      ensures Find(lang, text, SEARCH_ORDER[j]) == None
    {
      RankIsSearchOrder(SEARCH_ORDER[j]);
      ComparisonAvoids(lang, t, SEARCH_ORDER[j]);
      AvoidsIsAbsent(text, SEARCH_ORDER[j].Symbol());
    }
    ComparisonSymbol(op);
    PathBlankAvoids(t.path, op.Symbol());
    ScanPast(t.path + " ", op.Symbol() + (" " + right), op.Symbol(), None);
    RightShape(lang, t, op.Symbol());
    FoundReadsBack(lang, t.path, op, right);
  }

  // Word operators.

  /** Starting inside `a`, with `b` behind it, no word operator begins. */
  predicate NoWordIn(alnum: CharClass, a: string, b: string, op: Token, prev: Option<char>)
    decreases |a|
  {
    a != "" ==> !WordHere(alnum, a + b, op, prev) && NoWordIn(alnum, a[1..], b, op, Some(a[0]))
  }

  lemma {:induction false} ScanPastPath(alnum: CharClass, a: string, b: string, op: Token, prev: Option<char>)
    requires forall c <- a :: PathChar(c)
    ensures NoWordIn(alnum, a, b, op, prev) ==>
              FindWordFrom(alnum, a + b, op, None, prev) ==
              Shift(FindWordFrom(alnum, b, op, None, if a == "" then prev else Some(a[|a| - 1])), |a|)
    ensures !NoWordIn(alnum, a, b, op, prev) ==>
              var found := FindWordFrom(alnum, a + b, op, None, prev); found.Some? && found.value < |a|
    decreases |a|
  {
    if a == "" {
      assert a + b == b;
    } else {
      assert a[0] in a && forall c <- a[1..] :: c in a;
      assert (a + b)[1..] == a[1..] + b;
      ScanPastPath(alnum, a[1..], b, op, Some(a[0]));
    }
  }

  predicate AtBoundary(prev: Option<char>) {
    prev == None || prev == Some('.')
  }

  /** A word stands as the first segment of a path when a dot or the end follows it. */
  lemma FirstSegment(path: string, c: char)
    requires c != '.'
    ensures Split(path)[0] == [c] <==> path != "" && path[0] == c && (|path| == 1 || path[1] == '.')
  {
    if path != "" && path[0] != '.' {
      var r := Split(path[1..]);
      assert Split(path)[0] == [path[0]] + r[0];
      assert r[0] == "" <==> path[1..] == "" || path[1] == '.';
      if r[0] == "" {
        assert [path[0]] + r[0] == [path[0]];
      }
    }
  }

  lemma FirstTwo(path: string, x: char, y: char)
    requires x != '.' && y != '.'
    ensures Split(path)[0] == [x, y] <==> |path| >= 2 && path[0] == x && path[1] == y && (|path| == 2 || path[2] == '.')
  {
    if path != "" && path[0] != '.' {
      var r := Split(path[1..]);
      FirstSegment(path[1..], y);
      assert Split(path)[0] == [path[0]] + r[0];
      if r[0] == [y] {
        assert Split(path)[0] == [path[0], y];
      } else {
        assert ([path[0]] + r[0])[1..] == r[0] && [x, y][1..] == [y];
      }
    }
  }

  /** The segments of `path` that begin at or after the scan, given what the scan has just passed. */
  function SegmentsFrom(path: string, prev: Option<char>): seq<string> {
    if AtBoundary(prev) then Split(path) else Split(path)[1..]
  }

  lemma SegmentsStep(path: string, prev: Option<char>)
    requires path != ""
    ensures var later := SegmentsFrom(path[1..], Some(path[0]));
            SegmentsFrom(path, prev) == if AtBoundary(prev) then [Split(path)[0]] + later else later
  {
    var r := Split(path[1..]);
    if path[0] == '.' {
      assert Split(path)[1..] == r;
    } else {
      assert Split(path)[1..] == r[1..];
    }
    assert Split(path) == [Split(path)[0]] + Split(path)[1..];
  }

  predicate BreaksWord(alnum: CharClass, b: string) {
    b == "" || !WordChar(alnum, b[0])
  }

  lemma WordHereIsSegment(lang: Lang, path: string, b: string, prev: Option<char>)
    requires AsciiLang(lang) && path != "" && (forall c <- path :: PathChar(c)) && (prev.Some? ==> PathChar(prev.value))
    requires BreaksWord(lang.alnum, b) && (b == "" || b[0] == ' ')
    ensures WordHere(lang.alnum, path + b, "in", prev) <==> AtBoundary(prev) && Split(path)[0] == "in"
  {
    var s := path + b;
    FirstTwo(path, 'i', 'n');
    assert "in" <= s <==> |s| >= 2 && s[0] == 'i' && s[1] == 'n';
    assert forall k | 0 <= k < |path| :: path[k] in path && s[k] == path[k];
  }

  /** The scan for `in` stops inside a path exactly when one of its segments is "in". */
  lemma {:induction false} InSegment(lang: Lang, path: string, b: string, prev: Option<char>)
    requires AsciiLang(lang) && (forall c <- path :: PathChar(c)) && (prev.Some? ==> PathChar(prev.value))
    requires BreaksWord(lang.alnum, b) && (b == "" || b[0] == ' ')
    ensures NoWordIn(lang.alnum, path, b, "in", prev) <==> "in" !in SegmentsFrom(path, prev)
    decreases |path|
  {
    if path != "" {
      assert path[0] in path && forall c <- path[1..] :: c in path;
      WordHereIsSegment(lang, path, b, prev);
      InSegment(lang, path[1..], b, Some(path[0]));
      SegmentsStep(path, prev);
    }
  }

  predicate EndsInNot(segments: seq<string>) {
    segments != [] && segments[|segments| - 1] == "not"
  }

  lemma NoBlanks(path: string, b: string)
    requires forall c <- path :: PathChar(c)
    ensures forall k | 0 <= k < |path| :: (path + b)[k] == path[k] && path[k] != ' '
  {
    forall k | 0 <= k < |path|
      ensures path[k] != ' '
    {
      assert path[k] in path;
    }
  }

  lemma StartsWithNotIn(s: string)
    ensures "not in" <= s <==>
      |s| >= 6 && s[0] == 'n' && s[1] == 'o' && s[2] == 't' && s[3] == ' ' && s[4] == 'i' && s[5] == 'n'
  {
  }

  lemma NotHere(lang: Lang, path: string, b: string, prev: Option<char>)
    requires AsciiLang(lang) && path != "" && (forall c <- path :: PathChar(c)) && (prev.Some? ==> PathChar(prev.value))
    requires |b| > 3 && b[0] == ' ' && b[1] == 'i' && b[2] == 'n' && b[3] == ' '
    ensures WordHere(lang.alnum, path + b, "not in", prev) <==> AtBoundary(prev) && path == "not"
  {
    var s := path + b;
    StartsWithNotIn(s);
    NoBlanks(path, b);
    assert forall k | 0 <= k < 4 :: s[|path| + k] == b[k];
    if |path| == 3 {
      assert path == [s[0], s[1], s[2]];
    }
  }

  /** The scan for `not in` stops inside a path before " in " exactly when its last segment is "not". */
  lemma {:induction false} NotSegment(lang: Lang, path: string, b: string, prev: Option<char>)
    requires AsciiLang(lang) && (forall c <- path :: PathChar(c)) && (prev.Some? ==> PathChar(prev.value))
    requires |b| > 3 && b[0] == ' ' && b[1] == 'i' && b[2] == 'n' && b[3] == ' '
    ensures NoWordIn(lang.alnum, path, b, "not in", prev) <==> !EndsInNot(SegmentsFrom(path, prev))
    decreases |path|
  {
    if path != "" {
      assert path[0] in path && forall c <- path[1..] :: c in path;
      NotHere(lang, path, b, prev);
      NotSegment(lang, path[1..], b, Some(path[0]));
      SegmentsStep(path, prev);
      var later := SegmentsFrom(path[1..], Some(path[0]));
      if later == [] {
        Paths.SplitIsLossless(path);
      } else {
        assert path == "not" ==> later == [] by {
          assert path == "not" ==> path[1..] == "ot";
          SplitSegment("ot");
        }
      }
    }
  }

  lemma {:induction false} NegatedNotEarlier(alnum: CharClass, path: string, b: string, prev: Option<char>)
    requires (forall c <- path :: PathChar(c)) && |b| > 1 && b[0] == ' ' && b[1] == 'n'
    ensures NoWordIn(alnum, path, b, "not in", prev)
    decreases |path|
  {
    if path != "" {
      var s := path + b;
      StartsWithNotIn(s);
      NoBlanks(path, b);
      assert s[|path|] == b[0] && s[|path| + 1] == b[1] && path[0] in path;
      assert forall c <- path[1..] :: c in path;
      NegatedNotEarlier(alnum, path[1..], b, Some(path[0]));
    }
  }

  /** A word operator with blanks around it is found at its first letter. */
  lemma WordFoundBehindBlank(alnum: CharClass, op: Token, right: string, prev: Option<char>)
    requires !WordChar(alnum, ' ') && op[0] != ' '
    ensures FindWordFrom(alnum, " " + (op + (" " + right)), op, None, prev) == Some(1)
  {
    var rest := op + (" " + right);
    var s := " " + rest;
    assert s[1..] == rest && s[0] == ' ' && NextQuote(None, ' ') == None;
    assert rest[|op|] == ' ';
    assert WordHere(alnum, rest, op, Some(' '));
    assert FindWordFrom(alnum, rest, op, None, Some(' ')) == Some(0);
  }

  lemma MembershipAvoidsSymbol(lang: Lang, t: Written, sym: Token)
    requires Plain(lang, t) && t.Membership? && Foreign(sym) && !PathChar(sym[0]) && sym[0] != ' '
    ensures Avoids(Show(t), sym, None)
  {
    hide Avoids, RightOf;
    var word, right := OpOf(t).Symbol(), RightOf(t);
    RightShape(lang, t, sym);
    BlankRightAvoids(right, sym);
    WordAvoids(word, sym);
    AvoidsConcat(word, " " + right, sym, None);
    PathBlankAvoids(t.path, sym);
    AvoidsConcat(t.path + " ", word + (" " + right), sym, None);
  }

  lemma ComparisonSymbolsAbsent(lang: Lang, t: Written, op: Op)
    requires Plain(lang, t) && !t.Comparison? && !op.IsWord()
    ensures Find(lang, Show(t), op) == None
  {
    hide Avoids, FindFrom;
    ComparisonSymbol(op);
    if t.Membership? {
      MembershipAvoidsSymbol(lang, t, op.Symbol());
    } else {
      PathAvoids(t.path, op.Symbol());
    }
    AvoidsIsAbsent(Show(t), op.Symbol());
  }

  /** Where a word operator is found in a spaced term: behind the path, or inside it. */
  lemma WordFound(lang: Lang, path: string, op: Token, right: string)
    requires AsciiLang(lang) && PlainPath(path) && op[0] != ' '
    ensures var found := FindWordOp(lang.alnum, Spaced(path, op, right), op);
            if NoWordIn(lang.alnum, path, " " + (op + (" " + right)), op, None) then found == Some(|path| + 1)
            else found.Some? && found.value < |path|
  {
    var b := " " + (op + (" " + right));
    assert Spaced(path, op, right) == path + b;
    ScanPastPath(lang.alnum, path, b, op, None);
    WordFoundBehindBlank(lang.alnum, op, right, Some(path[|path| - 1]));
  }

  lemma NotInFound(lang: Lang, path: string, right: string)
    requires AsciiLang(lang) && PlainPath(path)
    ensures Find(lang, Spaced(path, "not in", right), NotIn) == Some(|path| + 1)
  {
    hide FindWordFrom, NoWordIn, Spaced;
    WordFound(lang, path, "not in", right);
    NegatedNotEarlier(lang.alnum, path, " " + ("not in" + (" " + right)), None);
  }

  lemma InNotEarlier(lang: Lang, path: string, tail: string)
    requires AsciiLang(lang) && PlainPath(path)
    ensures NoWordIn(lang.alnum, path, " " + tail, "in", None) <==> "in" !in Split(path)
  {
    InSegment(lang, path, " " + tail, None);
  }

  lemma InFound(lang: Lang, path: string, right: string)
    requires AsciiLang(lang) && PlainPath(path)
    ensures "in" !in Split(path) ==> Find(lang, Spaced(path, "in", right), In) == Some(|path| + 1)
    ensures "in" in Split(path) ==>
              var found := Find(lang, Spaced(path, "in", right), In); found.Some? && found.value < |path|
  {
    hide FindWordFrom, NoWordIn, Split, Spaced;
    var op: Token := "in";
    InNotEarlier(lang, path, op + (" " + right));
    WordFound(lang, path, op, right);
  }

  lemma InRightAvoids(right: string)
    requires right != "" && right[0] != 'o' && Avoids(right, "not in", None)
    ensures Avoids(" " + ("in" + (" " + right)), "not in", None)
  {
    hide Avoids;
    BlankRightAvoids(right, "not in");
    PairAvoids('n', " " + right, "not in");
    PairAvoids('i', ['n'] + (" " + right), "not in");
    assert ['i'] + (['n'] + (" " + right)) == "in" + (" " + right);
    BlankRightAvoids("in" + (" " + right), "not in");
  }

  /** `not in` is read in a term with `in` exactly when the path ends in the segment "not". */
  lemma NotInBesidesIn(lang: Lang, path: string, right: string)
    requires AsciiLang(lang) && PlainPath(path) && right != "" && right[0] != 'o' && Avoids(right, "not in", None)
    ensures Find(lang, Spaced(path, "in", right), NotIn) == None <==> Last(Split(path)) != "not"
  {
    hide FindWordFrom, NoWordIn, Split, Avoids;
    var b := " " + ("in" + (" " + right));
    assert Spaced(path, "in", right) == path + b;
    InRightAvoids(right);
    AvoidsNoWord(lang.alnum, b, "not in", None, Some(path[|path| - 1]));
    ScanPastPath(lang.alnum, path, b, "not in", None);
    NotSegment(lang, path, b, None);
  }

  lemma TooShort(lang: Lang, text: string, i: nat, path: string)
    requires i <= |text| && i < |path|
    ensures Trim(text[..i]) != path
  {
    TrimShrinks(text[..i]);
  }

  lemma EarlierThan(lang: Lang, t: Written, op: Op)
    requires Plain(lang, t) && !t.Comparison? && op.IsWord()
    requires op.In? ==> Find(lang, Show(t), NotIn) == None
    ensures forall j | 0 <= j < Rank(op) :: Find(lang, Show(t), SEARCH_ORDER[j]) == None
  {
    forall j | 0 <= j < Rank(op)
      ensures Find(lang, Show(t), SEARCH_ORDER[j]) == None
    {
      RankIsSearchOrder(SEARCH_ORDER[j]);
      if !SEARCH_ORDER[j].IsWord() {
        ComparisonSymbolsAbsent(lang, t, SEARCH_ORDER[j]);
      }
    }
  }

  lemma NegatedReadsBack(lang: Lang, t: Written)
    requires AsciiLang(lang) && Plain(lang, t) && t.Membership? && t.negated
    ensures Dispatch(lang, Show(t)) == Intended(t)
  {
    hide Dispatch, Find, ShowList;
    RightShape(lang, t, ">");
    NotInFound(lang, t.path, RightOf(t));
    EarlierThan(lang, t, NotIn);
    FoundReadsBack(lang, t.path, NotIn, RightOf(t));
  }

  /** A term read with its operator inside its own path has lost part of the path. */
  lemma FoundInsideMisreads(lang: Lang, text: string, op: Op, path: string)
    requires forall j | 0 <= j < Rank(op) :: Find(lang, text, SEARCH_ORDER[j]) == None
    requires Find(lang, text, op).Some? && Find(lang, text, op).value < |path|
    ensures Dispatch(lang, text).Compare? && Dispatch(lang, text).lhs != path
  {
    RankIsSearchOrder(op);
    DispatchFirst(lang, text, SEARCH_ORDER, Rank(op));
    TooShort(lang, text, Find(lang, text, op).value, path);
  }

  lemma FoundIsRead(lang: Lang, text: string, op: Op)
    requires forall j | 0 <= j < Rank(op) :: Find(lang, text, SEARCH_ORDER[j]) == None
    requires Find(lang, text, op).Some?
    ensures Dispatch(lang, text).Compare? && Dispatch(lang, text).op == op
  {
    RankIsSearchOrder(op);
    DispatchFirst(lang, text, SEARCH_ORDER, Rank(op));
  }

  lemma InReadsBackIff(lang: Lang, t: Written)
    requires AsciiLang(lang) && Plain(lang, t) && t.Membership? && !t.negated
    ensures Dispatch(lang, Show(t)) == Intended(t) <==> Unambiguous(t)
  {
    hide FindFrom, FindWordFrom, Dispatch, Spaced, ShowList, Split;
    var text, right := Show(t), RightOf(t);
    RightShape(lang, t, "not in");
    NotInBesidesIn(lang, t.path, right);
    if Last(Split(t.path)) == "not" {
      EarlierThan(lang, t, NotIn);
      FoundIsRead(lang, text, NotIn);
    } else {
      EarlierThan(lang, t, In);
      InFound(lang, t.path, right);
      if "in" in Split(t.path) {
        FoundInsideMisreads(lang, text, In, t.path);
      } else {
        FoundReadsBack(lang, t.path, In, right);
      }
    }
  }

  lemma NotInNeedsBlank(lang: Lang, path: string)
    requires PlainPath(path)
    ensures Find(lang, path, NotIn) == None
  {
    FindWordIsFirst(lang.alnum, path, "not in", None, None);
    forall j: nat
      ensures !Occurs(path, "not in", None, j)
    {
      if j + 6 <= |path| {
        assert path[j + 3] in path;
        assert path[j..j + 6][3] == path[j + 3];
      }
    }
  }

  lemma InInFlag(lang: Lang, path: string)
    requires AsciiLang(lang) && PlainPath(path)
    ensures Find(lang, path, In) == None <==> "in" !in Split(path)
  {
    assert path + "" == path;
    ScanPastPath(lang.alnum, path, "", "in", None);
    InSegment(lang, path, "", None);
  }

  lemma OperatorFreeFlag(lang: Lang, t: Written)
    requires Plain(lang, t) && t.Flag? && Find(lang, t.path, NotIn) == None && Find(lang, t.path, In) == None
    ensures Dispatch(lang, t.path) == Bare(t.path)
  {
    hide FindFrom, FindWordFrom, Dispatch;
    forall op <- SEARCH_ORDER
      ensures Find(lang, t.path, op) == None
    {
      if !op.IsWord() {
        ComparisonSymbolsAbsent(lang, t, op);
      }
    }
    DispatchNone(lang, t.path, SEARCH_ORDER);
    PathAvoids(t.path, "=");
    TrimTight(t.path);
  }

  lemma FlagReadsBackIff(lang: Lang, t: Written)
    requires AsciiLang(lang) && Plain(lang, t) && t.Flag?
    ensures Dispatch(lang, Show(t)) == Intended(t) <==> Unambiguous(t)
  {
    NotInNeedsBlank(lang, t.path);
    InInFlag(lang, t.path);
    EarlierThan(lang, t, In);
    if "in" in Split(t.path) {
      FoundIsRead(lang, t.path, In);
    } else {
      OperatorFreeFlag(lang, t);
    }
  }

  /** A rendered term reads back as itself exactly when its path spells no word operator. */
  lemma TermReadsBackIff(lang: Lang, t: Written)
    requires AsciiLang(lang) && Plain(lang, t)
    ensures Dispatch(lang, Show(t)) == Intended(t) <==> Unambiguous(t)
  {
    match t
    case Comparison(_, _, _) => ComparisonReadsBack(lang, t);
    case Membership(_, negated, _) =>
      if negated {
        NegatedReadsBack(lang, t);
      } else {
        InReadsBackIff(lang, t);
      }
    case Flag(_) => FlagReadsBackIff(lang, t);
  }

  /** The operands of a term read back as the values of its literals. */
  lemma OperandsReadBack(lang: Lang, t: Written)
    requires Plain(lang, t)
    ensures Readable(Intended(t))
    ensures t.Comparison? ==> ParseLiteral(lang, RightOf(t)) == Meaning(lang, t.literal)
    ensures t.Membership? ==>
              var vs := ParseList(lang, RightOf(t));
              |vs| == |t.literals| && forall k | 0 <= k < |vs| :: vs[k] == Meaning(lang, t.literals[k])
  {
    match t
    case Comparison(_, _, l) => LiteralReadsBack(lang, l);
    case Membership(_, _, ls) => ListReadsBack(lang, ls);
    case Flag(_) =>
  }

  // Whole conditions.

  predicate PlainConj(lang: Lang, conj: seq<Written>) {
    conj != [] && forall k | 0 <= k < |conj| :: Plain(lang, conj[k])
  }

  predicate PlainDnf(lang: Lang, dnf: seq<seq<Written>>) {
    dnf != [] && forall i | 0 <= i < |dnf| :: PlainConj(lang, dnf[i])
  }

  function ShowAnd(conj: seq<Written>): string {
    if conj == [] then "" else if |conj| == 1 then Show(conj[0]) else Show(conj[0]) + " and " + ShowAnd(conj[1..])
  }

  function ShowOr(dnf: seq<seq<Written>>): string {
    if dnf == [] then "" else if |dnf| == 1 then ShowAnd(dnf[0]) else ShowAnd(dnf[0]) + " or " + ShowOr(dnf[1..])
  }

  lemma {:induction false} ConjSplits(lang: Lang, conj: seq<Written>)
    requires PlainConj(lang, conj)
    ensures var parts := SplitTop(ShowAnd(conj), " and ");
            |parts| == |conj| && forall k | 0 <= k < |conj| :: parts[k] == Show(conj[k])
  {
    hide SplitFrom, Show;
    TermAvoids(lang, conj[0], " and ");
    if |conj| == 1 {
      AvoidsIsAbsent(Show(conj[0]), " and ");
    } else {
      var rest := conj[1..];
      assert forall k | 0 <= k < |rest| :: rest[k] == conj[k + 1];
      ConjSplits(lang, rest);
      SplitAfter(Show(conj[0]), ShowAnd(rest), " and ");
    }
  }

  /**
   A field named "or" that is not the first conjunct stands between two blanks and is taken for
   the separator, unless it is a bare field at the very end of the text.
   */
  predicate OrSafe(conj: seq<Written>, first: bool, last: bool) {
    forall k | (if first then 1 else 0) <= k < |conj| ::
      conj[k].path == "or" ==> conj[k].Flag? && last && k == |conj| - 1
  }

  predicate OrSafeDnf(dnf: seq<seq<Written>>) {
    forall i | 0 <= i < |dnf| :: OrSafe(dnf[i], true, i == |dnf| - 1)
  }

  lemma OrSafeStep(conj: seq<Written>, last: bool)
    requires conj != []
    ensures OrSafe(conj, false, last) <==>
            (conj[0].path == "or" ==> conj[0].Flag? && last && |conj| == 1) &&
            (|conj| > 1 ==> OrSafe(conj[1..], false, last))
    ensures OrSafe(conj, true, last) <==> (|conj| > 1 ==> OrSafe(conj[1..], false, last))
  {
    var rest := conj[1..];
    assert forall k | 1 <= k < |conj| :: conj[k] == rest[k - 1];
    assert forall k | 0 <= k < |rest| :: rest[k] == conj[k + 1];
  }

  /** The first conjunct whose field "or" is taken for the separator. */
  function BadAt(conj: seq<Written>, first: bool, last: bool): Option<nat> {
    if conj == [] then None
    else if !first && conj[0].path == "or" && !(conj[0].Flag? && last && |conj| == 1) then Some(0)
    else Shift(BadAt(conj[1..], false, last), 1)
  }

  lemma {:induction false} BadAtIff(conj: seq<Written>, first: bool, last: bool)
    ensures BadAt(conj, first, last) == None <==> OrSafe(conj, first, last)
    ensures BadAt(conj, first, last).Some? ==>
              var k := BadAt(conj, first, last).value; k < |conj| && (first ==> k > 0)
  {
    hide OrSafe;
    if conj == [] {
      NothingUnsafe(first, last);
    } else {
      OrSafeStep(conj, last);
      BadAtIff(conj[1..], false, last);
    }
  }

  lemma NothingUnsafe(first: bool, last: bool)
    ensures OrSafe([], first, last)
  {
  }

  /** Where the separator is found in a blank and the conjunction behind it, when the k-th conjunct is the bad one. */
  function CutAt(conj: seq<Written>, k: nat): nat
    requires k <= |conj|
  {
    if k == 0 then 0 else |ShowAnd(conj[..k])| + 5
  }

  lemma CutStep(conj: seq<Written>, k: nat)
    requires 0 < k <= |conj|
    ensures CutAt(conj, k) == |Show(conj[0])| + 5 + CutAt(conj[1..], k - 1)
  {
    hide Show;
    if k > 1 {
      assert conj[..k][1..] == conj[1..][..k - 1];
    }
  }

  /** What can follow a conjunction in the text: nothing, or the separator and another one. */
  predicate Tail(tail: string) {
    tail == "" || " or " <= tail
  }

  /** What follows the first term of a conjunction. */
  function More(conj: seq<Written>, tail: string): string
    requires conj != []
  {
    if |conj| == 1 then tail else " and" + (" " + (ShowAnd(conj[1..]) + tail))
  }

  lemma MoreFollows(conj: seq<Written>, tail: string)
    requires conj != [] && Tail(tail)
    ensures ShowAnd(conj) + tail == Show(conj[0]) + More(conj, tail)
    ensures var more := More(conj, tail); more == "" || more[0] == ' '
    ensures More(conj, tail) == "" <==> |conj| == 1 && tail == ""
  {
    if |conj| > 1 {
      var x, y := Show(conj[0]), ShowAnd(conj[1..]);
      Reassociate(x, y, tail);
    }
  }

  lemma Reassociate(x: string, y: string, tail: string)
    ensures x + " and " + y + tail == x + (" and" + (" " + (y + tail)))
  {
    assert " and" + " " == " and ";
    assert " and" + (" " + (y + tail)) == " and " + (y + tail);
  }

  lemma BlankOrText(path: string, behind: string)
    requires PlainPath(path) && (behind == "" || behind[0] == ' ')
    ensures " or " <= " " + (path + behind) <==> path == "or" && behind != ""
  {
    var rest := path + behind;
    var text := " " + rest;
    StartsWithOr(text);
    NoBlanks(path, behind);
    assert forall k | 0 <= k < |rest| :: text[k + 1] == rest[k];
    assert |rest| > |path| ==> rest[|path|] == ' ';
    if |path| == 2 {
      assert path == [rest[0], rest[1]];
    }
  }

  function BehindPath(t: Written): string {
    if t.Flag? then "" else " " + (OpOf(t).Symbol() + (" " + RightOf(t)))
  }

  lemma ShowBehindPath(t: Written)
    ensures Show(t) == t.path + BehindPath(t)
    ensures if t.Flag? then BehindPath(t) == "" else BehindPath(t) != "" && BehindPath(t)[0] == ' '
  {
  }

  /** The separator is read at a blank before a term exactly when the term's path is "or" and text follows. */
  lemma BlankOr(lang: Lang, t: Written, more: string)
    requires Plain(lang, t) && (more == "" || more[0] == ' ')
    ensures " or " <= " " + (Show(t) + more) <==> t.path == "or" && (!t.Flag? || more != "")
  {
    hide BehindPath, Show, PlainPath;
    ShowBehindPath(t);
    assert Show(t) + more == t.path + (BehindPath(t) + more);
    BlankOrText(t.path, BehindPath(t) + more);
  }

  lemma StartsWithOr(s: string)
    ensures " or " <= s <==> |s| >= 4 && s[0] == ' ' && s[1] == 'o' && s[2] == 'r' && s[3] == ' '
  {
  }

  /** The first separator: at a bad conjunct, else where the tail begins. */
  predicate FoundAt(text: string, end: nat, tail: string, bad: Option<nat>) {
    FindOp(text, " or ") == if bad.Some? then bad else if tail == "" then None else Some(end)
  }

  lemma FindPastTerm(lang: Lang, t: Written, more: string)
    requires Plain(lang, t)
    ensures FindOp(Show(t) + more, " or ") == Shift(FindOp(more, " or "), |Show(t)|)
  {
    TermAvoids(lang, t, " or ");
    ScanPast(Show(t), more, " or ", None);
  }

  lemma FindPastAnd(more: string)
    ensures FindOp(" and" + more, " or ") == Shift(FindOp(more, " or "), 4)
  {
    WordAvoids("and", " or ");
    Blanked("and", " or ");
    assert " " + "and" == " and";
    ScanPast(" and", more, " or ", None);
  }

  lemma FindInTail(tail: string)
    requires Tail(tail)
    ensures FindOp(tail, " or ") == if tail == "" then None else Some(0)
  {
  }

  /** The first " or " in what follows the first term, counted from behind that term. */
  lemma {:induction false} OrInMore(lang: Lang, conj: seq<Written>, tail: string)
    requires PlainConj(lang, conj) && Tail(tail)
    ensures var bad := BadAt(conj, true, tail == "");
            (bad.Some? ==> 0 < bad.value < |conj|) &&
            FoundAt(More(conj, tail), |More(conj, tail)| - |tail|, tail,
                    if bad.Some? then Some(4 + CutAt(conj[1..], bad.value - 1)) else None)
    decreases |conj|, 0
  {
    hide FindFrom, Show, CutAt;
    BadAtIff(conj, true, tail == "");
    if |conj| == 1 {
      FindInTail(tail);
    } else {
      var rest := conj[1..];
      assert forall k | 0 <= k < |rest| :: rest[k] == conj[k + 1];
      OrAfterBlank(lang, rest, tail);
      FindPastAnd(" " + (ShowAnd(rest) + tail));
    }
  }

  lemma FindBehindBlank(rest: string)
    ensures FindOp(" " + rest, " or ") == if " or " <= " " + rest then Some(0) else Shift(FindOp(rest, " or "), 1)
  {
    assert (" " + rest)[1..] == rest;
  }

  lemma {:induction false} OrAfterBlank(lang: Lang, conj: seq<Written>, tail: string)
    requires PlainConj(lang, conj) && Tail(tail)
    ensures var bad := BadAt(conj, false, tail == "");
            (bad.Some? ==> bad.value < |conj|) &&
            FoundAt(" " + (ShowAnd(conj) + tail), 1 + |ShowAnd(conj)|, tail,
                    if bad.Some? then Some(CutAt(conj, bad.value)) else None)
    decreases |conj|, 1
  {
    hide FindFrom, Show, CutAt;
    var t, more, bad := conj[0], More(conj, tail), BadAt(conj, false, tail == "");
    MoreFollows(conj, tail);
    FindBehindBlank(Show(t) + more);
    BlankOr(lang, t, more);
    BadAtIff(conj, false, tail == "");
    FindPastTerm(lang, t, more);
    OrInMore(lang, conj, tail);
    assert |ShowAnd(conj)| == |Show(t)| + |more| - |tail|;
    if bad.Some? && bad.value > 0 {
      CutStep(conj, bad.value);
    } else if bad.Some? {
      assert CutAt(conj, 0) == 0 by {
        NoCut(conj);
      }
    }
  }

  lemma NoCut(conj: seq<Written>)
    ensures CutAt(conj, 0) == 0
  {
  }

  /** The first " or " the scanner sees in a conjunction and what follows it. */
  lemma OrAfterConj(lang: Lang, conj: seq<Written>, tail: string)
    requires PlainConj(lang, conj) && Tail(tail)
    ensures var bad := BadAt(conj, true, tail == "");
            (bad.Some? ==> 0 < bad.value < |conj|) &&
            FoundAt(ShowAnd(conj) + tail, |ShowAnd(conj)|, tail,
                    if bad.Some? then Some(|ShowAnd(conj[..bad.value])| + 4) else None)
  {
    hide FindFrom, Show, ShowAnd;
    MoreFollows(conj, tail);
    FindPastTerm(lang, conj[0], More(conj, tail));
    OrInMore(lang, conj, tail);
    assert |ShowAnd(conj)| == |Show(conj[0])| + |More(conj, tail)| - |tail|;
    var bad := BadAt(conj, true, tail == "");
    if bad.Some? {
      CutStep(conj, bad.value);
    }
  }

  /** What stands before the separator found at a bad conjunct. */
  lemma {:induction false} TextBeforeBad(conj: seq<Written>, k: nat, tail: string)
    requires 0 < k < |conj|
    ensures var n := |ShowAnd(conj[..k])| + 4;
            n <= |ShowAnd(conj) + tail| && (ShowAnd(conj) + tail)[..n] == ShowAnd(conj[..k]) + " and"
  {
    hide Show;
    var head, rest := Show(conj[0]), conj[1..];
    assert ShowAnd(conj) == head + " and " + ShowAnd(rest);
    if k == 1 {
      assert ShowAnd(conj[..1]) == head;
      assert head + " and " + ShowAnd(rest) + tail == (head + " and") + (" " + ShowAnd(rest) + tail);
    } else {
      TextBeforeBad(rest, k - 1, tail);
      assert conj[..k][1..] == rest[..k - 1];
      var inner := ShowAnd(rest[..k - 1]) + " and";
      assert ShowAnd(conj[..k]) + " and" == (head + " and ") + inner;
      assert ShowAnd(conj) + tail == (head + " and ") + (ShowAnd(rest) + tail);
      assert ((head + " and ") + (ShowAnd(rest) + tail))[..|head + " and "| + |inner|] ==
             (head + " and ") + (ShowAnd(rest) + tail)[..|inner|];
    }
  }

  lemma LooseAndStays()
    ensures SplitTop(" and", " and ") == [" and"]
  {
    SplitAtFirst(" and", " and ", None);
    FindIsFirst(" and", " and ", None);
  }

  /** Cut off behind a loose " and", a conjunction splits into as many pieces as it has terms. */
  lemma {:induction false} TruncatedSplits(lang: Lang, conj: seq<Written>)
    requires PlainConj(lang, conj)
    ensures |SplitTop(ShowAnd(conj) + " and", " and ")| == |conj|
  {
    hide SplitFrom, Show, Avoids;
    var head := Show(conj[0]);
    TermAvoids(lang, conj[0], " and ");
    if |conj| == 1 {
      ScanPast(head, " and", " and ", None);
      LooseAndStays();
    } else {
      var rest := conj[1..];
      assert forall k | 0 <= k < |rest| :: rest[k] == conj[k + 1];
      TruncatedSplits(lang, rest);
      assert ShowAnd(conj) + " and" == head + " and " + (ShowAnd(rest) + " and");
      SplitAfter(head, ShowAnd(rest) + " and", " and ");
    }
  }

  predicate WrittenOut(parts: seq<string>, dnf: seq<seq<Written>>) {
    |parts| == |dnf| && forall i | 0 <= i < |dnf| :: parts[i] == ShowAnd(dnf[i])
  }

  lemma WrittenOutStep(parts: seq<string>, rest: seq<string>, dnf: seq<seq<Written>>)
    requires dnf != [] && parts == [ShowAnd(dnf[0])] + rest
    ensures WrittenOut(parts, dnf) <==> WrittenOut(rest, dnf[1..])
  {
    var later := dnf[1..];
    assert forall i | 1 <= i < |dnf| :: dnf[i] == later[i - 1];
    assert forall i | 0 <= i < |later| :: later[i] == dnf[i + 1];
    assert forall i | 1 <= i < |parts| :: parts[i] == rest[i - 1];
    assert forall i | 0 <= i < |rest| :: rest[i] == parts[i + 1];
  }

  lemma OrSafeDnfStep(dnf: seq<seq<Written>>)
    requires |dnf| > 1
    ensures OrSafeDnf(dnf) <==> OrSafe(dnf[0], true, false) && OrSafeDnf(dnf[1..])
  {
    var later := dnf[1..];
    assert forall i | 1 <= i < |dnf| :: dnf[i] == later[i - 1];
    assert forall i | 0 <= i < |later| :: later[i] == dnf[i + 1];
  }

  function BehindOr(tail: string): string {
    if |tail| < 4 then "" else tail[4..]
  }

  /** Splitting a text whose first separator is known. */
  lemma SplitAtFound(text: string, at: Option<nat>)
    requires FindOp(text, " or ") == at
    ensures var parts := SplitTop(text, " or ");
            match at
            case None => parts == [text]
            case Some(i) => i + 4 <= |text| && parts == [text[..i]] + SplitTop(text[i + 4..], " or ")
  {
    hide FindFrom, SplitFrom;
    SplitAtFirst(text, " or ", None);
  }

  /** One conjunction at the front: it is split off whole when it is safe, else only what is before the bad conjunct. */
  lemma HeadSplits(lang: Lang, conj: seq<Written>, tail: string)
    requires PlainConj(lang, conj) && Tail(tail)
    ensures var parts := SplitTop(ShowAnd(conj) + tail, " or ");
            if OrSafe(conj, true, tail == "")
            then parts == [ShowAnd(conj)] + (if tail == "" then [] else SplitTop(BehindOr(tail), " or "))
            else exists k | 0 < k < |conj| :: parts[0] == ShowAnd(conj[..k]) + " and"
  {
    hide FindFrom, SplitFrom, ShowAnd, OrSafe, BadAt, PlainConj;
    var head := ShowAnd(conj);
    var text, bad := head + tail, BadAt(conj, true, tail == "");
    OrAfterConj(lang, conj, tail);
    BadAtIff(conj, true, tail == "");
    SplitAtFound(text, FindOp(text, " or "));
    if bad.Some? {
      TextBeforeBad(conj, bad.value, tail);
    } else if tail == "" {
      assert text == head;
    } else {
      BehindHead(head, tail);
    }
  }

  lemma BehindHead(head: string, tail: string)
    requires Tail(tail) && tail != ""
    ensures var text := head + tail;
            |head| + 4 <= |text| && text[..|head|] == head && text[|head| + 4..] == BehindOr(tail)
  {
  }

  lemma PrefixIsNotWhole(lang: Lang, conj: seq<Written>, k: nat)
    requires PlainConj(lang, conj) && 0 < k < |conj|
    ensures |Conjuncts(lang, ShowAnd(conj[..k]) + " and")| == k
    ensures ShowAnd(conj[..k]) + " and" != ShowAnd(conj)
  {
    var some := conj[..k];
    assert PlainConj(lang, some);
    TruncatedSplits(lang, some);
    ConjSplits(lang, conj);
  }

  /** Splitting a rendered condition on " or " yields its conjunctions exactly when no field "or" gets in the way. */
  lemma {:induction false} DnfSplitsIff(lang: Lang, dnf: seq<seq<Written>>)
    requires PlainDnf(lang, dnf)
    ensures WrittenOut(SplitTop(ShowOr(dnf), " or "), dnf) <==> OrSafeDnf(dnf)
    decreases |dnf|
  {
    hide FindFrom, SplitFrom, ShowAnd, OrSafe;
    var head := ShowAnd(dnf[0]);
    if |dnf| == 1 {
      assert head + "" == head;
      HeadSplits(lang, dnf[0], "");
      if !OrSafe(dnf[0], true, true) {
        var k :| 0 < k < |dnf[0]| && SplitTop(head, " or ")[0] == ShowAnd(dnf[0][..k]) + " and";
        PrefixIsNotWhole(lang, dnf[0], k);
      }
    } else {
      var later := dnf[1..];
      var tail := " or " + ShowOr(later);
      assert ShowOr(dnf) == head + tail && BehindOr(tail) == ShowOr(later);
      HeadSplits(lang, dnf[0], tail);
      OrSafeDnfStep(dnf);
      assert forall i | 0 <= i < |later| :: later[i] == dnf[i + 1];
      DnfSplitsIff(lang, later);
      if OrSafe(dnf[0], true, false) {
        WrittenOutStep(SplitTop(ShowOr(dnf), " or "), SplitTop(ShowOr(later), " or "), dnf);
      } else {
        var k :| 0 < k < |dnf[0]| && SplitTop(ShowOr(dnf), " or ")[0] == ShowAnd(dnf[0][..k]) + " and";
        PrefixIsNotWhole(lang, dnf[0], k);
      }
    }
  }

  predicate Reads(read: seq<Term>, conj: seq<Written>) {
    |read| == |conj| && forall k | 0 <= k < |conj| :: read[k] == Intended(conj[k])
  }

  predicate AllUnambiguous(conj: seq<Written>) {
    forall k | 0 <= k < |conj| :: Unambiguous(conj[k])
  }

  /** A conjunction reads back term by term exactly when each of its terms does. */
  lemma ConjReadsBackIff(lang: Lang, conj: seq<Written>)
    requires AsciiLang(lang) && PlainConj(lang, conj)
    ensures Reads(Conjuncts(lang, ShowAnd(conj)), conj) <==> AllUnambiguous(conj)
  {
    ConjSplits(lang, conj);
    var read := Conjuncts(lang, ShowAnd(conj));
    forall k | 0 <= k < |conj|
      ensures read[k] == Intended(conj[k]) <==> Unambiguous(conj[k])
    {
      TermReadsBackIff(lang, conj[k]);
      ShowTight(lang, conj[k]);
      TrimTight(Show(conj[k]));
    }
  }

  predicate AllRead(lang: Lang, parts: seq<string>, dnf: seq<seq<Written>>) {
    |parts| == |dnf| && forall i | 0 <= i < |dnf| :: Reads(Conjuncts(lang, parts[i]), dnf[i])
  }

  lemma AllReadStep(lang: Lang, first: string, rest: seq<string>, dnf: seq<seq<Written>>)
    requires dnf != []
    ensures AllRead(lang, [first] + rest, dnf) <==>
              Reads(Conjuncts(lang, first), dnf[0]) && AllRead(lang, rest, dnf[1..])
  {
    hide Conjuncts, Reads;
    var parts, later := [first] + rest, dnf[1..];
    assert forall i | 1 <= i < |dnf| :: dnf[i] == later[i - 1];
    assert forall i | 0 <= i < |later| :: later[i] == dnf[i + 1];
    assert forall i | 1 <= i < |parts| :: parts[i] == rest[i - 1];
    assert forall i | 0 <= i < |rest| :: rest[i] == parts[i + 1];
  }

  predicate UnambiguousDnf(dnf: seq<seq<Written>>) {
    forall i | 0 <= i < |dnf| :: AllUnambiguous(dnf[i])
  }

  lemma UnambiguousDnfStep(dnf: seq<seq<Written>>)
    requires dnf != []
    ensures UnambiguousDnf(dnf) <==> AllUnambiguous(dnf[0]) && UnambiguousDnf(dnf[1..])
  {
    hide AllUnambiguous;
    var later := dnf[1..];
    assert forall i | 1 <= i < |dnf| :: dnf[i] == later[i - 1];
    assert forall i | 0 <= i < |later| :: later[i] == dnf[i + 1];
  }

  /** A conjunction at the front of a text reads back exactly when it is safe and unambiguous; then the rest is left. */
  lemma HeadReadsBackIff(lang: Lang, conj: seq<Written>, tail: string)
    requires AsciiLang(lang) && PlainConj(lang, conj) && Tail(tail)
    ensures var parts := SplitTop(ShowAnd(conj) + tail, " or ");
            (Reads(Conjuncts(lang, parts[0]), conj) <==> OrSafe(conj, true, tail == "") && AllUnambiguous(conj)) &&
            (OrSafe(conj, true, tail == "") ==>
             parts == [ShowAnd(conj)] + if tail == "" then [] else SplitTop(BehindOr(tail), " or "))
  {
    hide SplitFrom, ShowAnd, OrSafe, AllUnambiguous, Conjuncts;
    HeadSplits(lang, conj, tail);
    if OrSafe(conj, true, tail == "") {
      ConjReadsBackIff(lang, conj);
    } else {
      var k :| 0 < k < |conj| && SplitTop(ShowAnd(conj) + tail, " or ")[0] == ShowAnd(conj[..k]) + " and";
      PrefixIsNotWhole(lang, conj, k);
    }
  }

  lemma {:induction false} AllReadIff(lang: Lang, dnf: seq<seq<Written>>)
    requires AsciiLang(lang) && PlainDnf(lang, dnf)
    ensures AllRead(lang, SplitTop(ShowOr(dnf), " or "), dnf) <==> OrSafeDnf(dnf) && UnambiguousDnf(dnf)
    decreases |dnf|
  {
    hide SplitFrom, ShowAnd, OrSafe, AllUnambiguous, Conjuncts, Reads, AsciiLang, PlainConj;
    var head, later := ShowAnd(dnf[0]), dnf[1..];
    UnambiguousDnfStep(dnf);
    if |dnf| == 1 {
      assert head + "" == head;
      HeadReadsBackIff(lang, dnf[0], "");
    } else {
      var tail := " or " + ShowOr(later);
      assert ShowOr(dnf) == head + tail && BehindOr(tail) == ShowOr(later);
      HeadReadsBackIff(lang, dnf[0], tail);
      OrSafeDnfStep(dnf);
      assert forall i | 0 <= i < |later| :: later[i] == dnf[i + 1];
      AllReadIff(lang, later);
      if OrSafe(dnf[0], true, false) {
        AllReadStep(lang, head, SplitTop(ShowOr(later), " or "), dnf);
      }
    }
  }

  /** What the parser reads is what was written: the same conjunctions of the same terms. */
  predicate ReadsAs(read: seq<seq<Term>>, dnf: seq<seq<Written>>) {
    |read| == |dnf| && forall i | 0 <= i < |dnf| :: Reads(read[i], dnf[i])
  }

  /**
   Rendering an or-of-ands condition and reading the text recovers every term, operator and
   operand text, if and only if no field named "or" stands between blanks and no path spells a
   word operator.
   */
  lemma ConditionReadsBack(lang: Lang, dnf: seq<seq<Written>>)
    requires AsciiLang(lang) && PlainDnf(lang, dnf)
    ensures ReadsAs(Terms(lang, ShowOr(dnf)), dnf) <==> OrSafeDnf(dnf) && UnambiguousDnf(dnf)
  {
    hide Conjuncts, Reads, SplitFrom, ShowOr, OrSafeDnf, UnambiguousDnf, PlainDnf;
    AllReadIff(lang, dnf);
    var parts := SplitTop(ShowOr(dnf), " or ");
    assert |Terms(lang, ShowOr(dnf))| == |parts|;
    assert forall i | 0 <= i < |parts| :: Terms(lang, ShowOr(dnf))[i] == Conjuncts(lang, parts[i]);
  }

  /** Such an input: a comparison of a field named "or" behind another term is not read back. */
  lemma FieldNamedOrIsMisread(lang: Lang, n: int)
    requires AsciiLang(lang) && I64_MIN <= n <= I64_MAX
    ensures var dnf := [[Flag("a"), Comparison("or", Eq, Integer(n))]];
            PlainDnf(lang, dnf) && !ReadsAs(Terms(lang, ShowOr(dnf)), dnf)
  {
    hide Terms, ReadsAs, ShowOr, AsciiLang;
    var conj := [Flag("a"), Comparison("or", Eq, Integer(n))];
    assert Plain(lang, conj[0]) && Plain(lang, conj[1]);
    assert conj[1].path == "or";
    assert !OrSafe(conj, true, true);
    assert [conj][0] == conj;
    ConditionReadsBack(lang, [conj]);
  }
}
