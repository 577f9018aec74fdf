/**
 BSON values and documents, with the path reads and writes every other module uses.
 A document is an ordered list of fields, so an insert on a present key keeps the key's place.
 */
module Bson {
  import opened Wrappers
  import opened Paths

  datatype Value =
    | Null
    | Boolean(b: bool)
    | Int32(i: int)
    | Int64(i: int)
    | Double(r: real)
    | Str(s: string)
    | DateTime(ms: int)
    | Doc(doc: Document)
    | Arr(elems: seq<Value>)
    | Binary(bytes: seq<int>)

  datatype Document = End | Field(key: string, value: Value, rest: Document)

  function Get(d: Document, key: string): Option<Value> {
    match d
    case End => None
    case Field(k, v, rest) => if k == key then Some(v) else Get(rest, key)
  }

  function Insert(d: Document, key: string, v: Value): Document {
    match d
    case End => Field(key, v, End)
    case Field(k, w, rest) => if k == key then Field(k, v, rest) else Field(k, w, Insert(rest, key, v))
  }

  function Keys(d: Document): seq<string> {
    match d
    case End => []
    case Field(k, _, rest) => [k] + Keys(rest)
  }

  /** An insert replaces the value of a present key in its place, and puts a new key last. */
  lemma {:induction false} InsertMeans(d: Document, key: string, v: Value)
    ensures Get(Insert(d, key, v), key) == Some(v)
    ensures forall k | k != key :: Get(Insert(d, key, v), k) == Get(d, k)
    ensures Keys(Insert(d, key, v)) == if Get(d, key).Some? then Keys(d) else Keys(d) + [key]
  {
    if d.Field? && d.key != key {
      InsertMeans(d.rest, key, v);
      assert [d.key] + (Keys(d.rest) + [key]) == Keys(d) + [key];
    }
  }

  /** A one-field document. */
  function Single(key: string, v: Value): Document {
    Field(key, v, End)
  }

  function GetSegments(d: Document, p: Segments): Option<Value>
    decreases |p|
  {
    match Get(d, p[0])
    case None => None
    case Some(v) =>
      if |p| == 1 then Some(v)
      else if v.Doc? then GetSegments(v.doc, p[1..])
      else None
  }

  function GetPath(d: Document, path: string): Option<Value> {
    GetSegments(d, Split(path))
  }

  lemma PlainKey(d: Document, key: string)
    requires DotFree(key)
    ensures GetPath(d, key) == Get(d, key)
  {
    SplitSegment(key);
  }

  /** The embedded document under `key`, or an empty one where there is none to descend into. */
  function Child(d: Document, key: string): Document {
    match Get(d, key)
    case Some(Doc(c)) => c
    case _ => End
  }

  function SetSegments(d: Document, p: Segments, v: Value): Document
    decreases |p|
  {
    if |p| == 1 then Insert(d, p[0], v)
    else Insert(d, p[0], Doc(SetSegments(Child(d, p[0]), p[1..], v)))
  }

  /**
   The source's recursion, on the path text: take the first segment, re-join the others, and
   descend into the child, which replaces whatever was not a document.
   */
  function SetPath(d: Document, path: string, v: Value): Document
    decreases |Split(path)|
  {
    var parts := Split(path);
    if |parts| == 1 then Insert(d, parts[0], v)
    else
      var rest := Join(parts[1..]);
      SplitIsLossless(path);
      SplitOfJoin(parts[1..]);
      Insert(d, parts[0], Doc(SetPath(Child(d, parts[0]), rest, v)))
  }

  lemma {:induction false} SetPathIsSetSegments(d: Document, path: string, v: Value)
    ensures SetPath(d, path, v) == SetSegments(d, Split(path), v)
    decreases |Split(path)|
  {
    var parts := Split(path);
    if |parts| > 1 {
      SplitIsLossless(path);
      SplitOfJoin(parts[1..]);
      SetPathIsSetSegments(Child(d, parts[0]), Join(parts[1..]), v);
    }
  }

  lemma GetInsert(d: Document, key: string, v: Value, k: string)
    ensures Get(Insert(d, key, v), k) == if k == key then Some(v) else Get(d, k)
  {
  }

  lemma InsertInsert(d: Document, key: string, v: Value, w: Value)
    ensures Insert(Insert(d, key, v), key, w) == Insert(d, key, w)
  {
  }

  lemma InsertSame(d: Document, key: string)
    requires Get(d, key).Some?
    ensures Insert(d, key, Get(d, key).value) == d
  {
  }

  // Lens laws on segment lists.

  lemma {:induction false} GetAfterSet(d: Document, p: Segments, v: Value)
    ensures GetSegments(SetSegments(d, p, v), p) == Some(v)
    decreases |p|
  {
    if |p| == 1 {
      GetInsert(d, p[0], v, p[0]);
    } else {
      var c := SetSegments(Child(d, p[0]), p[1..], v);
      GetInsert(d, p[0], Doc(c), p[0]);
      GetAfterSet(Child(d, p[0]), p[1..], v);
    }
  }

  lemma {:induction false} SetAfterSet(d: Document, p: Segments, v: Value, w: Value)
    ensures SetSegments(SetSegments(d, p, v), p, w) == SetSegments(d, p, w)
    decreases |p|
  {
    if |p| == 1 {
      InsertInsert(d, p[0], v, w);
    } else {
      var c := SetSegments(Child(d, p[0]), p[1..], v);
      GetInsert(d, p[0], Doc(c), p[0]);
      SetAfterSet(Child(d, p[0]), p[1..], v, w);
      InsertInsert(d, p[0], Doc(c), Doc(SetSegments(Child(d, p[0]), p[1..], w)));
    }
  }

  lemma {:induction false} SetWhatIsThere(d: Document, p: Segments)
    requires GetSegments(d, p).Some?
    ensures SetSegments(d, p, GetSegments(d, p).value) == d
    decreases |p|
  {
    InsertSame(d, p[0]);
    if |p| > 1 {
      SetWhatIsThere(Child(d, p[0]), p[1..]);
    }
  }

  lemma {:induction false} SetLeavesUnrelated(d: Document, p: Segments, v: Value, q: Segments)
    requires Unrelated(p, q)
    ensures GetSegments(SetSegments(d, p, v), q) == GetSegments(d, q)
    decreases |p|
  {
    if p[0] != q[0] {
      var w := if |p| == 1 then v else Doc(SetSegments(Child(d, p[0]), p[1..], v));
      GetInsert(d, p[0], w, q[0]);
    } else {
      var c := SetSegments(Child(d, p[0]), p[1..], v);
      GetInsert(d, p[0], Doc(c), p[0]);
      SetLeavesUnrelated(Child(d, p[0]), p[1..], v, q[1..]);
      if !(Get(d, p[0]).Some? && Get(d, p[0]).value.Doc?) {
        assert GetSegments(End, q[1..]) == None;
      }
    }
  }

  /** Below the written path one sees the written value, and nothing of what it replaced. */
  lemma {:induction false} GetBelowSet(d: Document, p: Segments, v: Value, below: Segments)
    ensures GetSegments(SetSegments(d, p, v), p + below) == if v.Doc? then GetSegments(v.doc, below) else None
    decreases |p|
  {
    var q := p + below;
    if |p| == 1 {
      GetInsert(d, p[0], v, p[0]);
      assert q[1..] == below;
    } else {
      GetInsert(d, p[0], Doc(SetSegments(Child(d, p[0]), p[1..], v)), p[0]);
      assert q[1..] == p[1..] + below;
      GetBelowSet(Child(d, p[0]), p[1..], v, below);
    }
  }

  /** The lens laws as the transformer uses them, on dotted path text. */
  lemma PathLensLaws(d: Document, path: string, v: Value, w: Value)
    ensures GetPath(SetPath(d, path, v), path) == Some(v)
    ensures SetPath(SetPath(d, path, v), path, w) == SetPath(d, path, w)
    ensures GetPath(d, path) == Some(v) ==> SetPath(d, path, v) == d
  {
    var p := Split(path);
    SetPathIsSetSegments(d, path, v);
    SetPathIsSetSegments(d, path, w);
    SetPathIsSetSegments(SetPath(d, path, v), path, w);
    GetAfterSet(d, p, v);
    SetAfterSet(d, p, v, w);
    if GetPath(d, path) == Some(v) {
      SetWhatIsThere(d, p);
    }
  }

  lemma PathFrame(d: Document, path: string, v: Value, other: string)
    requires Unrelated(Split(path), Split(other))
    ensures GetPath(SetPath(d, path, v), other) == GetPath(d, other)
  {
    SetPathIsSetSegments(d, path, v);
    SetLeavesUnrelated(d, Split(path), v, Split(other));
  }
}
