/** Dotted field paths: splitting on '.', joining, and the prefix relation on segments. */
module Paths {
  type Segments = p: seq<string> | |p| > 0 witness [""]

  function Split(path: string): (p: Segments)
  {
    if path == "" then [""]
    else if path[0] == '.' then [""] + Split(path[1..])
    else var r := Split(path[1..]); [[path[0]] + r[0]] + r[1..]
  }

  function Join(p: Segments): string {
    if |p| == 1 then p[0] else p[0] + "." + Join(p[1..])
  }

  predicate DotFree(s: string) {
    '.' !in s
  }

  lemma {:induction false} SplitSegment(s: string)
    requires DotFree(s)
    ensures Split(s) == [s]
  {
    if s != "" {
      SplitSegment(s[1..]);
      assert [s[0]] + s[1..] == s;
    }
  }

  lemma {:induction false} SplitHead(s: string, rest: string)
    requires DotFree(s)
    ensures Split(s + "." + rest) == [s] + Split(rest)
  {
    var t := s + "." + rest;
    if s == "" {
      assert t[1..] == rest;
    } else {
      SplitHead(s[1..], rest);
      assert t[1..] == s[1..] + "." + rest;
      assert [s[0]] + s[1..] == s;
    }
  }

  lemma JoinAfterDot(r: Segments)
    ensures Join([""] + r) == "." + Join(r)
  {
    assert ([""] + r)[1..] == r;
    assert "" + "." == ".";
  }

  lemma JoinExtended(c: char, r: Segments)
    ensures Join([[c] + r[0]] + r[1..]) == [c] + Join(r)
  {
    var q := [[c] + r[0]] + r[1..];
    assert q[1..] == r[1..];
    if |r| > 1 {
      assert ([c] + r[0]) + "." + Join(r[1..]) == [c] + (r[0] + "." + Join(r[1..]));
    }
  }

  /** Splitting leaves no dot inside a segment, and joining the segments gives the path back. */
  lemma {:induction false} SplitIsLossless(path: string)
    ensures Join(Split(path)) == path
    ensures forall s <- Split(path) :: DotFree(s)
  {
    hide Join;
    if path == "" {
      JoinOne("");
    } else {
      SplitIsLossless(path[1..]);
      var r := Split(path[1..]);
      assert path == [path[0]] + path[1..];
      if path[0] == '.' {
        JoinAfterDot(r);
      } else {
        JoinExtended(path[0], r);
        assert r[0] in r;
        assert forall s <- r[1..] :: s in r;
      }
    }
  }

  lemma JoinOne(s: string)
    ensures Join([s]) == s
  {
  }

  lemma {:induction false} SplitOfJoin(p: Segments)
    requires forall s <- p :: DotFree(s)
    ensures Split(Join(p)) == p
  {
    if |p| == 1 {
      SplitSegment(p[0]);
    } else {
      SplitOfJoin(p[1..]);
      SplitHead(p[0], Join(p[1..]));
    }
  }

  /** Neither path is a prefix of the other: no document can hold one inside the other. */
  predicate Unrelated(p: Segments, q: Segments) {
    !(p <= q) && !(q <= p)
  }
}
