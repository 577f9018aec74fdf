/** Text as the literal parser and the sorts see it: order, trimming and decimal integers. */
module Text {
  import opened Wrappers

  const I64_MIN := -0x8000_0000_0000_0000
  const I64_MAX := 0x7fff_ffff_ffff_ffff

  /** The order of strings: by the first character that differs, a proper prefix first. */
  predicate Precedes(a: string, b: string) {
    b != "" && (a == "" || a[0] < b[0] || (a[0] == b[0] && Precedes(a[1..], b[1..])))
  }

  lemma {:induction false} PrecedesIrreflexive(a: string)
    ensures !Precedes(a, a)
  {
    if a != "" {
      PrecedesIrreflexive(a[1..]);
    }
  }

  lemma {:induction false} PrecedesOneWay(a: string, b: string)
    ensures Precedes(a, b) ==> !Precedes(b, a)
    decreases |a|
  {
    if a != "" && b != "" {
      PrecedesOneWay(a[1..], b[1..]);
    }
  }

  lemma {:induction false} PrecedesBetween(a: string, b: string, c: string)
    requires Precedes(a, c)
    ensures Precedes(a, b) || Precedes(b, c)
    decreases |a|
  {
    if a != "" && b != "" && a[0] == b[0] == c[0] {
      PrecedesBetween(a[1..], b[1..], c[1..]);
    }
  }

  lemma {:induction false} PrecedesOrNot(a: string, b: string)
    ensures a == b || Precedes(a, b) || Precedes(b, a)
    decreases |a|
  {
    if a != "" && b != "" && a[0] == b[0] {
      PrecedesOrNot(a[1..], b[1..]);
      assert a == [a[0]] + a[1..] && b == [b[0]] + b[1..];
    }
  }

  function TextOrder(): (string, string) -> bool {
    (a, b) => Precedes(a, b)
  }

  lemma {:induction false} PrecedesAt(a: string, b: string, k: nat)
    requires k < |a| && k < |b| && a[..k] == b[..k] && a[k] != b[k]
    ensures Precedes(a, b) <==> a[k] < b[k]
  {
    if k > 0 {
      assert a[0] == a[..k][0] == b[..k][0] == b[0];
      assert a[1..][..k - 1] == a[..k][1..] && b[1..][..k - 1] == b[..k][1..];
      PrecedesAt(a[1..], b[1..], k - 1);
    }
  }

  /** A proper prefix comes first. */
  lemma {:induction false} PrefixPrecedes(a: string, b: string)
    ensures Precedes(a, a + b) <==> b != ""
    ensures !Precedes(a + b, a)
  {
    if a == "" {
      assert a + b == b;
    } else {
      assert (a + b)[1..] == a[1..] + b;
      PrefixPrecedes(a[1..], b);
    }
  }

  /** The Unicode White_Space property. */
  predicate IsWhitespace(c: char) {
    var n := c as int;
    0x9 <= n <= 0xd || n in {0x20, 0x85, 0xa0, 0x1680, 0x2028, 0x2029, 0x202f, 0x205f, 0x3000} || 0x2000 <= n <= 0x200a
  }

  function TrimStart(s: string): string {
    if s != "" && IsWhitespace(s[0]) then TrimStart(s[1..]) else s
  }

  function TrimEnd(s: string): string {
    if s != "" && IsWhitespace(s[|s| - 1]) then TrimEnd(s[..|s| - 1]) else s
  }

  function Trim(s: string): string {
    TrimEnd(TrimStart(s))
  }

  predicate Tight(s: string) {
    s == "" || (!IsWhitespace(s[0]) && !IsWhitespace(s[|s| - 1]))
  }

  lemma TrimTight(s: string)
    requires Tight(s)
    ensures Trim(s) == s
  {
  }

  /** One blank on either side is trimmed away. */
  lemma TrimPadded(s: string)
    requires Tight(s)
    ensures Trim(" " + s) == s && Trim(s + " ") == s
  {
    assert (" " + s)[1..] == s;
    assert TrimStart(" " + s) == TrimStart(s) == s;
    var t := s + " ";
    assert t[..|s|] == s;
    if s == "" {
      assert t == " " && t[1..] == "";
      assert TrimStart(t) == TrimStart(t[1..]) == "";
    } else {
      assert TrimStart(t) == t;
      assert TrimEnd(t) == TrimEnd(s);
    }
  }

  /** Trimming takes away the blanks at both ends and nothing else. */
  lemma TrimMeans(s: string) returns (before: string, after: string)
    ensures s == before + Trim(s) + after && Tight(Trim(s))
    ensures (forall c <- before :: IsWhitespace(c)) && forall c <- after :: IsWhitespace(c)
  {
    hide IsWhitespace, TrimStart, TrimEnd;
    before := TrimStartMeans(s);
    after := TrimEndMeans(TrimStart(s));
    var t, u := TrimStart(s), Trim(s);
    assert t == u + after && before + (u + after) == before + u + after;
    if u != "" {
      assert u[0] == t[0];
    }
  }

  /** The blanks of ASCII. */
  lemma AsciiBlanks(c: char)
    requires c as int < 128
    ensures IsWhitespace(c) <==> c in " \t\n\r" || c as int == 0xb || c as int == 0xc
  {
  }

  lemma {:induction false} TrimStartMeans(s: string) returns (before: string)
    ensures s == before + TrimStart(s) && forall c <- before :: IsWhitespace(c)
    ensures TrimStart(s) == "" || !IsWhitespace(TrimStart(s)[0])
  {
    hide IsWhitespace;
    before := "";
    if s != "" && IsWhitespace(s[0]) {
      var rest := TrimStartMeans(s[1..]);
      before := [s[0]] + rest;
      assert s == [s[0]] + s[1..];
    }
  }

  lemma {:induction false} TrimEndMeans(s: string) returns (after: string)
    ensures s == TrimEnd(s) + after && forall c <- after :: IsWhitespace(c)
    ensures TrimEnd(s) == "" || !IsWhitespace(TrimEnd(s)[|TrimEnd(s)| - 1])
    decreases |s|
  {
    hide IsWhitespace;
    after := "";
    if s != "" && IsWhitespace(s[|s| - 1]) {
      var last := |s| - 1;
      var rest := TrimEndMeans(s[..last]);
      after := rest + [s[last]];
      assert s == s[..last] + [s[last]] == TrimEnd(s) + (rest + [s[last]]);
    }
  }

  lemma TrimShrinks(s: string)
    ensures |Trim(s)| <= |s|
  {
    TrimStartShrinks(s);
    TrimEndShrinks(TrimStart(s));
  }

  lemma TrimStartShrinks(s: string)
    ensures |TrimStart(s)| <= |s|
  {
  }

  lemma TrimEndShrinks(s: string)
    ensures |TrimEnd(s)| <= |s|
  {
  }

  predicate IsDigit(c: char) {
    '0' <= c <= '9'
  }

  predicate AllDigits(s: string) {
    forall c <- s :: IsDigit(c)
  }

  function NatValue(s: string): nat
    requires AllDigits(s)
  {
    if s == "" then 0 else
      assert s[|s| - 1] in s;
      NatValue(s[..|s| - 1]) * 10 + (s[|s| - 1] as int - '0' as int)
  }

  /** Rust's `str::parse::<i64>`: an optional sign, at least one digit, and a value in range. */
  function ParseI64(s: string): Option<int> {
    var body := if s != "" && (s[0] == '-' || s[0] == '+') then s[1..] else s;
    if body == "" || !AllDigits(body) then None
    else
      var n: int := NatValue(body);
      var v := if s[0] == '-' then -n else n;
      if I64_MIN <= v <= I64_MAX then Some(v) else None
  }

  /** Numerals are positional: one digit is its value, one more behind makes ten times as much and that digit. */
  lemma ParsePositional(s: string, c: char)
    requires AllDigits(s) && '0' <= c <= '9'
    ensures ParseI64([c]) == Some(c as int - '0' as int)
    ensures s != "" && ParseI64(s).Some? ==>
              var n := 10 * ParseI64(s).value + (c as int - '0' as int);
              ParseI64(s + [c]) == (if n <= 9_223_372_036_854_775_807 then Some(n) else None) &&
              ParseI64("-" + s) == Some(-ParseI64(s).value) && ParseI64("+" + s) == ParseI64(s)
  {
    var one := [c];
    assert one[..0] == "" && one[0] == c && forall x <- one :: x == c;
    assert NatValue(one) == c as int - '0' as int;
    if s != "" {
      var t := s + [c];
      assert t[..|t| - 1] == s && t[|t| - 1] == c;
      assert s[0] in s && s[0] == t[0];
      assert ("-" + s)[1..] == s && ("+" + s)[1..] == s;
    }
  }

  /** Only signed digits are numerals. */
  lemma OnlyNumerals(s: string)
    requires ParseI64(s).Some?
    ensures s != "" && (IsDigit(s[0]) || ((s[0] == '-' || s[0] == '+') && |s| > 1))
    ensures forall i | 1 <= i < |s| :: '0' <= s[i] <= '9'
  {
    var body := if s[0] == '-' || s[0] == '+' then s[1..] else s;
    assert forall i | 0 <= i < |body| :: body[i] in body;
    assert |body| < |s| ==> forall i | 1 <= i < |s| :: s[i] == body[i - 1];
  }

  function ShowNat(n: nat): (s: string)
    ensures s != "" && AllDigits(s)
  {
    if n < 10 then ['0' + n as char] else ShowNat(n / 10) + ['0' + (n % 10) as char]
  }

  function ShowInt(i: int): string {
    if i < 0 then "-" + ShowNat(-i) else ShowNat(i)
  }

  lemma {:induction false} NatValueShow(n: nat)
    ensures NatValue(ShowNat(n)) == n
  {
    var s := ShowNat(n);
    if n < 10 {
      assert s[..0] == "";
    } else {
      NatValueShow(n / 10);
      assert s[..|s| - 1] == ShowNat(n / 10);
    }
  }

  lemma ParseShow(i: int)
    requires I64_MIN <= i <= I64_MAX
    ensures ParseI64(ShowInt(i)) == Some(i)
  {
    NatValueShow(if i < 0 then -i else i);
    if i < 0 {
      assert ShowInt(i)[1..] == ShowNat(-i);
    } else {
      assert IsDigit(ShowInt(i)[0]) by {
        assert ShowInt(i)[0] in ShowInt(i);
      }
    }
  }
}
