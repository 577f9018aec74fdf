/**
 The quote-aware text scanner under the condition language: splitting on a separator and
 finding an operator, both blind to what stands between single or double quotes.

 Each scanning loop of the source is a method here, proved against a function on the text
 that is left to scan and the quote that is open there.
 */
module QuoteScan {
  import opened Wrappers

  /** The library's character class; on ASCII it is `AsciiWord` without '_'. */
  type CharClass = char -> bool

  predicate IsQuote(c: char) {
    c == '\'' || c == '"'
  }

  /** The quote open after reading `c` when `q` was open before it. */
  function NextQuote(q: Option<char>, c: char): Option<char> {
    if q.Some? then (if c == q.value then None else q)
    else if IsQuote(c) then Some(c) else None
  }

  function QuoteAfter(q: Option<char>, s: string): Option<char>
    decreases |s|
  {
    if s == "" then q else QuoteAfter(NextQuote(q, s[0]), s[1..])
  }

  lemma {:induction false} QuoteAfterConcat(q: Option<char>, a: string, b: string)
    ensures QuoteAfter(q, a + b) == QuoteAfter(QuoteAfter(q, a), b)
    decreases |a|
  {
    if a == "" {
      assert a + b == b;
    } else {
      assert (a + b)[1..] == a[1..] + b;
      QuoteAfterConcat(NextQuote(q, a[0]), a[1..], b);
    }
  }

  /** A separator or operator: it is never empty and holds no quote. */
  type Token = t: string | |t| > 0 && forall c <- t :: !IsQuote(c) witness "="

  // Splitting.

  function SplitFrom(s: string, sep: Token, q: Option<char>): (parts: seq<string>)
    ensures |parts| > 0
    decreases |s|
  {
    if s == "" then [""]
    else if q == None && sep <= s then [""] + SplitFrom(s[|sep|..], sep, None)
    else Prepend([s[0]], SplitFrom(s[1..], sep, NextQuote(q, s[0])))
  }

  function Prepend(head: string, parts: seq<string>): seq<string>
    requires |parts| > 0
  {
    [head + parts[0]] + parts[1..]
  }

  lemma PrependNothing(parts: seq<string>)
    requires |parts| > 0
    ensures Prepend("", parts) == parts
  {
    assert "" + parts[0] == parts[0];
  }

  lemma PrependTwice(a: string, b: string, parts: seq<string>)
    requires |parts| > 0
    ensures Prepend(a, Prepend(b, parts)) == Prepend(a + b, parts)
  {
    assert a + (b + parts[0]) == (a + b) + parts[0];
    assert Prepend(b, parts)[1..] == parts[1..];
  }

  function SplitTop(s: string, sep: Token): seq<string> {
    SplitFrom(s, sep, None)
  }

  /** Scanning one ordinary or quoted character moves it from the rest to the part being built. */
  lemma SplitStep(current: string, s: string, sep: Token, q: Option<char>)
    requires s != ""
    requires q.Some? || IsQuote(s[0]) || !(sep <= s)
    ensures Prepend(current, SplitFrom(s, sep, q)) ==
            Prepend(current + [s[0]], SplitFrom(s[1..], sep, NextQuote(q, s[0])))
  {
    assert sep[0] in sep;
    PrependTwice(current, [s[0]], SplitFrom(s[1..], sep, NextQuote(q, s[0])));
  }

  /** Scanning a separator closes the part being built. */
  lemma SplitBreak(current: string, s: string, sep: Token)
    requires sep <= s
    ensures Prepend(current, SplitFrom(s, sep, None)) == [current] + Prepend("", SplitFrom(s[|sep|..], sep, None))
  {
    var after := SplitFrom(s[|sep|..], sep, None);
    PrependNothing(after);
    assert current + "" == current && ([""] + after)[1..] == after;
  }

  lemma SplitNothing(current: string, sep: Token, q: Option<char>)
    ensures Prepend(current, SplitFrom("", sep, q)) == [current]
  {
    assert current + "" == current;
  }

  method SplitTopLoop(expr: string, sep: Token) returns (parts: seq<string>)
    ensures parts == SplitTop(expr, sep)
  {
    hide SplitFrom;
    parts := [];
    var current: string := "";
    var quote: Option<char> := None;
    var i := 0;
    ghost var rest := expr;
    assert expr[0..] == expr;
    PrependNothing(SplitTop(expr, sep));
    while i < |expr|
      invariant 0 <= i <= |expr| && rest == expr[i..]
      invariant parts + Prepend(current, SplitFrom(rest, sep, quote)) == SplitTop(expr, sep)
    {
      var c := expr[i];
      assert rest[0] == c && rest[1..] == expr[i + 1..];
      if quote.Some? {
        SplitStep(current, rest, sep, quote);
        if c == quote.value {
          quote := None;
        }
        current := current + [c];
        i := i + 1;
      } else if IsQuote(c) {
        SplitStep(current, rest, sep, quote);
        quote := Some(c);
        current := current + [c];
        i := i + 1;
      } else if sep <= expr[i..] {
        SplitBreak(current, rest, sep);
        assert rest[|sep|..] == expr[i + |sep|..];
        parts := parts + [current];
        current := "";
        i := i + |sep|;
      } else {
        SplitStep(current, rest, sep, quote);
        current := current + [c];
        i := i + 1;
      }
      rest := expr[i..];
    }
    SplitNothing(current, sep, quote);
    parts := parts + [current];
  }

  function JoinWith(parts: seq<string>, sep: string): string
    requires |parts| > 0
  {
    if |parts| == 1 then parts[0] else parts[0] + sep + JoinWith(parts[1..], sep)
  }

  lemma JoinPrepend(head: string, parts: seq<string>, sep: string)
    requires |parts| > 0
    ensures JoinWith(Prepend(head, parts), sep) == head + JoinWith(parts, sep)
  {
    var p := Prepend(head, parts);
    if |parts| > 1 {
      assert p[1..] == parts[1..];
      assert (head + parts[0]) + sep + JoinWith(parts[1..], sep) == head + (parts[0] + sep + JoinWith(parts[1..], sep));
    }
  }

  lemma JoinBreak(rest: string, sep: string, parts: seq<string>)
    requires |parts| > 0 && JoinWith(parts, sep) == rest
    ensures JoinWith([""] + parts, sep) == sep + rest
  {
    assert ([""] + parts)[1..] == parts;
    assert "" + sep == sep;
  }

  /** Re-joining the parts with the separator gives back the text, whatever it quotes. */
  lemma {:induction false} SplitIsLossless(s: string, sep: Token, q: Option<char>)
    ensures JoinWith(SplitFrom(s, sep, q), sep) == s
    decreases |s|
  {
    hide JoinWith;
    if s == "" {
      JoinOne("", sep);
    } else if q == None && sep <= s {
      SplitIsLossless(s[|sep|..], sep, None);
      JoinBreak(s[|sep|..], sep, SplitFrom(s[|sep|..], sep, None));
      assert s == sep + s[|sep|..];
    } else {
      var later := SplitFrom(s[1..], sep, NextQuote(q, s[0]));
      SplitIsLossless(s[1..], sep, NextQuote(q, s[0]));
      JoinPrepend([s[0]], later, sep);
      assert s == [s[0]] + s[1..];
    }
  }

  lemma JoinOne(s: string, sep: string)
    ensures JoinWith([s], sep) == s
  {
  }

  // Finding.

  function Shift(found: Option<nat>, n: nat): Option<nat> {
    match found
    case None => None
    case Some(i) => Some(i + n)
  }

  function FindFrom(s: string, op: Token, q: Option<char>): Option<nat> {
    if s == "" then None
    else if q == None && op <= s then Some(0)
    else Shift(FindFrom(s[1..], op, NextQuote(q, s[0])), 1)
  }

  function FindOp(term: string, op: Token): Option<nat> {
    FindFrom(term, op, None)
  }

  method FindOpLoop(term: string, op: Token) returns (found: Option<nat>)
    ensures found == FindOp(term, op)
  {
    var quote: Option<char> := None;
    var i := 0;
    while i < |term|
      invariant 0 <= i <= |term|
      invariant FindOp(term, op) == Shift(FindFrom(term[i..], op, quote), i)
    {
      var c := term[i];
      assert term[i..][1..] == term[i + 1..];
      if quote.Some? {
        if c == quote.value {
          quote := None;
        }
      } else if IsQuote(c) {
        quote := Some(c);
      } else if op <= term[i..] {
        return Some(i);
      }
      i := i + 1;
    }
    found := None;
  }

  /** `op` stands at `i`, outside quotes: what a reader of the condition means by "the operator is there". */
  ghost predicate Occurs(s: string, op: Token, q: Option<char>, i: nat) {
    i + |op| <= |s| && QuoteAfter(q, s[..i]) == None && s[i..i + |op|] == op
  }

  lemma OccursLater(s: string, op: Token, q: Option<char>, j: nat)
    requires s != "" && j > 0
    ensures Occurs(s, op, q, j) <==> Occurs(s[1..], op, NextQuote(q, s[0]), j - 1)
  {
    if j + |op| <= |s| {
      assert s[..j][0] == s[0] && s[..j][1..] == s[1..][..j - 1];
      assert s[j..j + |op|] == s[1..][j - 1..j - 1 + |op|];
    }
  }

  lemma OccursHere(s: string, op: Token, q: Option<char>)
    ensures Occurs(s, op, q, 0) <==> q == None && op <= s
  {
    assert s[..0] == "";
  }

  /** The scan returns the first unquoted occurrence, and fails only when there is none. */
  lemma {:induction false} FindIsFirst(s: string, op: Token, q: Option<char>)
    ensures match FindFrom(s, op, q)
            case Some(i) => Occurs(s, op, q, i) && forall j: nat | j < i :: !Occurs(s, op, q, j)
            case None => forall j: nat :: !Occurs(s, op, q, j)
    decreases |s|
  {
    hide Occurs;
    OccursHere(s, op, q);
    if s == "" {
      forall j: nat
        ensures !Occurs(s, op, q, j)
      {
        OccursFits(s, op, q, j);
      }
    } else if !(q == None && op <= s) {
      FindIsFirst(s[1..], op, NextQuote(q, s[0]));
      forall j: nat | j > 0
        ensures Occurs(s, op, q, j) <==> Occurs(s[1..], op, NextQuote(q, s[0]), j - 1)
      {
        OccursLater(s, op, q, j);
      }
    }
  }

  lemma OccursFits(s: string, op: Token, q: Option<char>, j: nat)
    ensures Occurs(s, op, q, j) ==> j + |op| <= |s|
  {
  }

  lemma PrependToFirst(s: string, i: nat, parts: seq<string>)
    requires s != "" && i < |s|
    ensures Prepend([s[0]], [s[1..][..i]] + parts) == [s[..i + 1]] + parts
  {
    assert [s[0]] + s[1..][..i] == s[..i + 1];
    assert ([s[1..][..i]] + parts)[1..] == parts;
  }

  /** The splitter and the finder are two loops in the source; this is the agreement between them. */
  lemma {:induction false} SplitAtFirst(s: string, sep: Token, q: Option<char>)
    ensures match FindFrom(s, sep, q)
            case None => SplitFrom(s, sep, q) == [s]
            case Some(i) =>
              i + |sep| <= |s| &&
              SplitFrom(s, sep, q) == [s[..i]] + SplitTop(s[i + |sep|..], sep)
    decreases |s|
  {
    if s == "" || (q == None && sep <= s) {
    } else {
      var t, q' := s[1..], NextQuote(q, s[0]);
      SplitAtFirst(t, sep, q');
      match FindFrom(t, sep, q') {
        case None =>
          assert [s[0]] + t == s;
        case Some(i) =>
          PrependToFirst(s, i, SplitTop(t[i + |sep|..], sep));
          assert t[i + |sep|..] == s[i + 1 + |sep|..];
      }
    }
  }

  /** No part holds an unquoted separator, and every part but the last closes its quotes. */
  lemma {:induction false} SplitParts(s: string, sep: Token)
    ensures forall part <- SplitTop(s, sep) :: FindOp(part, sep) == None
    ensures var parts := SplitTop(s, sep);
            forall k | 0 <= k < |parts| - 1 :: QuoteAfter(None, parts[k]) == None
    decreases |s|
  {
    SplitAtFirst(s, sep, None);
    match FindOp(s, sep) {
      case None =>
      case Some(i) =>
        var rest := s[i + |sep|..];
        SplitParts(rest, sep);
        FindIsFirst(s, sep, None);
        assert Occurs(s, sep, None, i);
        FindIsFirst(s[..i], sep, None);
        forall j: nat
          ensures !Occurs(s[..i], sep, None, j)
        {
          if j + |sep| <= i {
            assert s[..i][..j] == s[..j];
            assert s[..i][j..j + |sep|] == s[j..j + |sep|];
            assert !Occurs(s, sep, None, j);
          }
        }
        var parts := SplitTop(s, sep);
        assert parts[1..] == SplitTop(rest, sep);
        forall k | 0 <= k < |parts| - 1
          ensures QuoteAfter(None, parts[k]) == None
        {
          if k > 0 {
            assert parts[k] == parts[1..][k - 1];
          }
        }
    }
  }

  // Finding a word.

  predicate WordChar(alnum: CharClass, c: char) {
    alnum(c) || c == '_'
  }

  /** `op` opens `s` and touches no identifier character on either side. */
  predicate WordHere(alnum: CharClass, s: string, op: Token, prev: Option<char>) {
    op <= s &&
    (prev == None || !WordChar(alnum, prev.value)) &&
    (|s| == |op| || !WordChar(alnum, s[|op|]))
  }

  function FindWordFrom(alnum: CharClass, s: string, op: Token, q: Option<char>, prev: Option<char>): Option<nat>
    decreases |s|
  {
    if s == "" then None
    else if q == None && WordHere(alnum, s, op, prev) then Some(0)
    else Shift(FindWordFrom(alnum, s[1..], op, NextQuote(q, s[0]), Some(s[0])), 1)
  }

  function FindWordOp(alnum: CharClass, term: string, op: Token): Option<nat> {
    FindWordFrom(alnum, term, op, None, None)
  }

  method FindWordOpLoop(alnum: CharClass, term: string, op: Token) returns (found: Option<nat>)
    ensures found == FindWordOp(alnum, term, op)
  {
    var quote: Option<char> := None;
    var i := 0;
    while i < |term|
      invariant 0 <= i <= |term|
      invariant FindWordOp(alnum, term, op) ==
        Shift(FindWordFrom(alnum, term[i..], op, quote, if i == 0 then None else Some(term[i - 1])), i)
    {
      var c := term[i];
      assert term[i..][1..] == term[i + 1..];
      if quote.Some? {
        if c == quote.value {
          quote := None;
        }
      } else if IsQuote(c) {
        quote := Some(c);
      } else if op <= term[i..] {
        var beforeOk := i == 0 || !WordChar(alnum, term[i - 1]);
        var afterIdx := i + |op|;
        var afterOk := afterIdx >= |term| || !WordChar(alnum, term[afterIdx]);
        if beforeOk && afterOk {
          return Some(i);
        }
      }
      i := i + 1;
    }
    found := None;
  }

  /** The word operator stands at `i`: an unquoted occurrence with no identifier character touching it. */
  ghost predicate WordOccurs(alnum: CharClass, s: string, op: Token, q: Option<char>, prev: Option<char>, i: nat) {
    Occurs(s, op, q, i) && WordHere(alnum, s[i..], op, if i == 0 then prev else Some(s[i - 1]))
  }

  lemma WordOccursLater(alnum: CharClass, s: string, op: Token, q: Option<char>, prev: Option<char>, j: nat)
    requires s != "" && j > 0
    ensures WordOccurs(alnum, s, op, q, prev, j) <==>
              WordOccurs(alnum, s[1..], op, NextQuote(q, s[0]), Some(s[0]), j - 1)
  {
    hide Occurs, WordHere;
    OccursLater(s, op, q, j);
    OccursFits(s, op, q, j);
    if Occurs(s, op, q, j) {
      assert s[j..] == s[1..][j - 1..];
    }
  }

  lemma WordOccursHere(alnum: CharClass, s: string, op: Token, q: Option<char>, prev: Option<char>)
    ensures WordOccurs(alnum, s, op, q, prev, 0) <==> q == None && WordHere(alnum, s, op, prev)
  {
    OccursHere(s, op, q);
    assert s[0..] == s;
  }

  lemma WordOccursFits(alnum: CharClass, s: string, op: Token, q: Option<char>, prev: Option<char>, j: nat)
    ensures WordOccurs(alnum, s, op, q, prev, j) ==> j + |op| <= |s|
  {
  }

  lemma {:induction false} FindWordIsFirst(alnum: CharClass, s: string, op: Token, q: Option<char>, prev: Option<char>)
    ensures match FindWordFrom(alnum, s, op, q, prev)
            case Some(i) => WordOccurs(alnum, s, op, q, prev, i) &&
              forall j: nat | j < i :: !WordOccurs(alnum, s, op, q, prev, j)
            case None => forall j: nat :: !WordOccurs(alnum, s, op, q, prev, j)
    decreases |s|
  {
    hide WordOccurs, WordHere;
    WordOccursHere(alnum, s, op, q, prev);
    if s == "" {
      forall j: nat
        ensures !WordOccurs(alnum, s, op, q, prev, j)
      {
        WordOccursFits(alnum, s, op, q, prev, j);
      }
    } else if !(q == None && WordHere(alnum, s, op, prev)) {
      FindWordIsFirst(alnum, s[1..], op, NextQuote(q, s[0]), Some(s[0]));
      forall j: nat | j > 0
        ensures WordOccurs(alnum, s, op, q, prev, j) <==>
                  WordOccurs(alnum, s[1..], op, NextQuote(q, s[0]), Some(s[0]), j - 1)
      {
        WordOccursLater(alnum, s, op, q, prev, j);
      }
    }
  }
}
