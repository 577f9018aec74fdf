/**
 Reading only the fields the closure needs: what a MongoDB projection keeps of a document, the
 projection computed from the reference graph, and why the closure over projected documents is
 the closure over whole ones.
 */
module Projection {
  import opened Wrappers
  import opened Paths
  import opened Bson
  import opened References
  import opened Subset
  import opened StableSort
  import opened Text

  type PathSet = set<Segments>

  function Tails(ps: PathSet, key: string): PathSet {
    set p | p in ps && |p| > 1 && p[0] == key :: p[1..]
  }

  predicate Mentions(ps: PathSet, key: string) {
    exists p :: p in ps && p[0] == key
  }

  /** What the server returns: named fields whole, documents on the way to one pruned, all else dropped. */
  function Project(d: Document, ps: PathSet): Document {
    match d
    case End => End
    case Field(k, v, rest) =>
      if [k] in ps then Field(k, v, Project(rest, ps))
      else if v.Doc? && Mentions(ps, k) then Field(k, Doc(Project(v.doc, Tails(ps, k))), Project(rest, ps))
      else Project(rest, ps)
  }

  /** Field names are unique in a document and in everything embedded in it. */
  predicate UniqueFields(d: Document) {
    match d
    case End => true
    case Field(k, v, rest) => Get(rest, k) == None && (v.Doc? ==> UniqueFields(v.doc)) && UniqueFields(rest)
  }

  lemma UniqueInside(d: Document, key: string)
    requires UniqueFields(d) && Get(d, key).Some? && Get(d, key).value.Doc?
    ensures UniqueFields(Get(d, key).value.doc)
  {
  }

  lemma {:induction false} ProjectGet(d: Document, ps: PathSet, key: string)
    requires UniqueFields(d)
    ensures Get(Project(d, ps), key) ==
            match Get(d, key)
            case None => None
            case Some(v) =>
              if [key] in ps then Some(v)
              else if v.Doc? && Mentions(ps, key) then Some(Doc(Project(v.doc, Tails(ps, key))))
              else None
  {
    if d.Field? {
      ProjectGet(d.rest, ps, key);
    }
  }

  /** Every projected path reads the same in the projected document. */
  lemma {:induction false} ProjectKeeps(d: Document, ps: PathSet, p: Segments)
    requires UniqueFields(d) && p in ps
    ensures GetSegments(Project(d, ps), p) == GetSegments(d, p)
    decreases |p|
  {
    ProjectGet(d, ps, p[0]);
    if |p| == 1 {
      assert p == [p[0]];
    } else if Get(d, p[0]).Some? && Get(d, p[0]).value.Doc? && [p[0]] !in ps {
      UniqueInside(d, p[0]);
      assert p[1..] in Tails(ps, p[0]);
      ProjectKeeps(Get(d, p[0]).value.doc, Tails(ps, p[0]), p[1..]);
    }
  }

  /** The server rejects a projection that names a path and something below it. */
  predicate NoCollision(fields: set<string>) {
    forall a, b | a in fields && b in fields && a != b :: !(Split(a) <= Split(b))
  }

  // The projection of each collection.

  function CaseFields(e: Edge): set<string> {
    if e.target.Polymorphic? then set k | k in e.target.cases :: k.field else {}
  }

  ghost predicate Needs(edges: seq<Edge>, collection: string, field: string) {
    exists e <- edges :: NeedsFrom(e, collection, field) || NeedsTarget(e, e.TargetCollections(), collection, field)
  }

  type Projections = map<string, set<string>>

  /** `entry(collection).or_insert(["_id"])`, then pushing the fields. */
  function AddFields(ps: Projections, collection: string, fields: set<string>): Projections {
    ps[collection := (if collection in ps then ps[collection] else {"_id"}) + fields]
  }

  /** The projection asks for `f` from collection `c`. */
  predicate Asks(ps: Projections, c: string, f: string) {
    c in ps && f in ps[c]
  }

  /** Exactly `_id`, the reference fields, the discriminators and the referenced fields, and nothing else. */
  ghost predicate IsProjection(ps: Projections, edges: seq<Edge>) {
    (forall c <- ps :: "_id" in ps[c]) && forall c, f :: Asks(ps, c, f) <==> Needs(edges, c, f)
  }

  ghost predicate NeedsFrom(e: Edge, c: string, f: string) {
    e.fromCollection == c && (f == "_id" || f == e.fromField || f in CaseFields(e))
  }

  ghost predicate NeedsTarget(e: Edge, targets: seq<string>, c: string, f: string) {
    c in targets && (f == "_id" || f == e.toField)
  }

  lemma NeedsOneMore(edges: seq<Edge>, e: Edge, c: string, f: string)
    ensures Needs(edges + [e], c, f) <==>
            Needs(edges, c, f) || NeedsFrom(e, c, f) || NeedsTarget(e, e.TargetCollections(), c, f)
  {
    assert forall x :: x in edges + [e] <==> x in edges || x == e;
  }

  lemma AddFieldsAsks(ps: Projections, collection: string, fields: set<string>)
    requires forall c <- ps :: "_id" in ps[c]
    ensures var r := AddFields(ps, collection, fields);
            (forall c <- r :: "_id" in r[c]) &&
            forall c, f :: Asks(r, c, f) <==> Asks(ps, c, f) || (c == collection && (f == "_id" || f in fields))
  {
  }

  // The lists that are sent.

  type FieldLists = map<string, seq<string>>

  function FieldSet(fields: seq<string>): set<string> {
    set f | f in fields
  }

  function SetsOf(lists: FieldLists): Projections {
    map c | c in lists :: FieldSet(lists[c])
  }

  function Push(lists: FieldLists, collection: string, fields: seq<string>): FieldLists {
    lists[collection := (if collection in lists then lists[collection] else ["_id"]) + fields]
  }

  lemma PushAdds(lists: FieldLists, collection: string, fields: seq<string>)
    ensures SetsOf(Push(lists, collection, fields)) == AddFields(SetsOf(lists), collection, FieldSet(fields))
  {
    var before := if collection in lists then lists[collection] else ["_id"];
    assert FieldSet(["_id"]) == {"_id"};
    assert FieldSet(before + fields) == FieldSet(before) + FieldSet(fields);
  }

  /** Of equal neighbours only the last is kept. */
  function Dedup(s: seq<string>): seq<string> {
    if |s| <= 1 then s else if s[0] == s[1] then Dedup(s[1..]) else [s[0]] + Dedup(s[1..])
  }

  predicate Increasing(s: seq<string>) {
    forall i, j | 0 <= i < j < |s| :: Precedes(s[i], s[j])
  }

  lemma {:induction false} DedupHolds(s: seq<string>)
    ensures forall x :: x in Dedup(s) <==> x in s
  {
    if |s| > 1 {
      DedupHolds(s[1..]);
      assert s[1] == s[1..][0] && s == [s[0]] + s[1..];
    }
  }

  lemma TextIsOrdered()
    ensures Ordering(TextOrder())
  {
    forall a, b
      ensures Precedes(a, b) ==> !Precedes(b, a)
    {
      PrecedesOneWay(a, b);
    }
    forall a, b, c | Precedes(a, c)
      ensures Precedes(a, b) || Precedes(b, c)
    {
      PrecedesBetween(a, b, c);
    }
  }

  lemma {:induction false} DedupIncreases(s: seq<string>)
    requires Sorted(TextOrder(), s)
    ensures Increasing(Dedup(s))
  {
    if |s| > 1 {
      var rest := s[1..];
      assert forall i | 0 <= i < |rest| :: rest[i] == s[i + 1];
      DedupIncreases(rest);
      if s[0] != s[1] {
        DedupHolds(rest);
        var out := Dedup(rest);
        forall j | 0 <= j < |out|
          ensures Precedes(s[0], out[j])
        {
          assert out[j] in rest;
          var k :| 0 <= k < |rest| && rest[k] == out[j];
          FirstIsLeast(s, k + 1);
        }
      }
    }
  }

  lemma FirstIsLeast(s: seq<string>, k: nat)
    requires Sorted(TextOrder(), s) && 0 < k < |s| && s[0] != s[1]
    ensures Precedes(s[0], s[k])
  {
    assert !TextOrder()(s[k], s[0]) && !TextOrder()(s[1], s[0]);
    PrecedesOrNot(s[0], s[1]);
    PrecedesOrNot(s[0], s[k]);
    assert k > 1 ==> !TextOrder()(s[k], s[1]);
  }

  /** `sort` and then `dedup`. */
  function Tidy(fields: seq<string>): seq<string> {
    Dedup(Sort(TextOrder(), fields))
  }

  lemma TidyHolds(fields: seq<string>)
    ensures FieldSet(Tidy(fields)) == FieldSet(fields) && Increasing(Tidy(fields))
  {
    hide Increasing, Sorted, Ordering;
    var sorted := Sort(TextOrder(), fields);
    TextIsOrdered();
    SortHolds(TextOrder(), fields);
    SortIsSorted(TextOrder(), fields);
    DedupHolds(sorted);
    DedupIncreases(sorted);
  }

  function Discriminators(e: Edge): (fields: seq<string>)
    ensures FieldSet(fields) == CaseFields(e)
  {
    if e.target.Polymorphic? then
      var cases := e.target.cases;
      var fields := seq(|cases|, i requires 0 <= i < |cases| => cases[i].field);
      assert forall i | 0 <= i < |cases| :: fields[i] == cases[i].field && cases[i] in cases;
      fields
    else []
  }

  /** Every list is sorted, without repetition, and holds exactly what its collection's projection needs. */
  method BuildProjections(edges: seq<Edge>) returns (lists: FieldLists)
    ensures IsProjection(SetsOf(lists), edges)
    ensures forall c <- lists :: Increasing(lists[c])
  {
    hide Tidy, FieldSet, Increasing;
    var pushed := PushAll(edges);
    lists := map c | c in pushed :: Tidy(pushed[c]);
    forall c <- pushed
      ensures FieldSet(lists[c]) == FieldSet(pushed[c]) && Increasing(lists[c])
    {
      TidyHolds(pushed[c]);
    }
    assert SetsOf(lists) == SetsOf(pushed);
  }

  method PushAll(edges: seq<Edge>) returns (lists: FieldLists)
    ensures IsProjection(SetsOf(lists), edges)
  {
    hide Needs, CaseFields, SetsOf, Push, FieldSet;
    lists := map[];
    ghost var ps: Projections := map[];
    NoLists();
    assert forall c, f :: !Needs([], c, f) by {
      NothingNeeded();
    }
    for i := 0 to |edges|
      invariant ps == SetsOf(lists) && IsProjection(ps, edges[..i])
    {
      var e := edges[i];
      var fields := [e.fromField] + Discriminators(e);
      PushAdds(lists, e.fromCollection, fields);
      lists := Push(lists, e.fromCollection, fields);
      FieldsOf(e);
      AddFieldsAsks(ps, e.fromCollection, {e.fromField} + CaseFields(e));
      ps := AddFields(ps, e.fromCollection, {e.fromField} + CaseFields(e));
      ghost var before := ps;
      var targets := e.TargetCollections();
      for j := 0 to |targets|
        invariant ps == SetsOf(lists) && forall c <- ps :: "_id" in ps[c]
        invariant forall c, f :: Asks(ps, c, f) <==> Asks(before, c, f) || NeedsTarget(e, targets[..j], c, f)
      {
        PushAdds(lists, targets[j], [e.toField]);
        lists := Push(lists, targets[j], [e.toField]);
        AddFieldsAsks(ps, targets[j], {e.toField});
        ps := AddFields(ps, targets[j], {e.toField});
        OneField(e.toField);
        assert targets[..j + 1] == targets[..j] + [targets[j]];
      }
      assert targets[..|targets|] == targets;
      assert edges[..i + 1] == edges[..i] + [e];
      forall c, f
        ensures Asks(ps, c, f) <==> Needs(edges[..i + 1], c, f)
      {
        NeedsOneMore(edges[..i], e, c, f);
      }
    }
    assert edges[..|edges|] == edges;
  }

  lemma NoLists()
    ensures SetsOf(map[]) == map[]
  {
  }

  lemma OneField(f: string)
    ensures FieldSet([f]) == {f}
  {
  }

  lemma FieldsOf(e: Edge)
    ensures FieldSet([e.fromField] + Discriminators(e)) == {e.fromField} + CaseFields(e)
  {
    var fields := Discriminators(e);
    assert forall f :: f in [e.fromField] + fields <==> f == e.fromField || f in fields;
  }

  lemma NothingNeeded()
    ensures forall c, f :: !Needs([], c, f)
  {
  }

  function PathsOf(fields: set<string>): PathSet {
    set f | f in fields :: Split(f)
  }

  /** The view a projecting source hands out; a collection with no declared reference comes whole. */
  function ProjectedView(ps: Projections, n: Node): Document {
    if n.collection in ps then Project(n.doc, PathsOf(ps[n.collection])) else n.doc
  }

  /** The view shows everything the traversal looks at. */
  ghost predicate Faithful(src: Source, edges: seq<Edge>) {
    forall n | src.Has(n) ::
      Get(src.view(n), "_id") == Get(n.doc, "_id") &&
      forall e <- edges | e.fromCollection == n.collection ::
        e.ResolveTarget(src.view(n)) == e.ResolveTarget(n.doc) &&
        GetPath(src.view(n), e.fromField) == GetPath(n.doc, e.fromField)
  }

  /** The same database read as whole documents, with nothing unreadable. */
  function Whole(db: map<string, seq<Document>>): Source {
    Source(db, (n: Node) => n.doc, (d: Document) => "", (c: string) => true)
  }

  /** A discriminator is looked up as a plain key, but a dotted one would be projected as a path. */
  predicate PlainDiscriminators(edges: seq<Edge>) {
    forall e <- edges, f <- CaseFields(e) :: DotFree(f)
  }

  lemma ProjectedPath(ps: Projections, n: Node, field: string)
    requires UniqueFields(n.doc) && (n.collection in ps ==> field in ps[n.collection])
    ensures GetPath(ProjectedView(ps, n), field) == GetPath(n.doc, field)
  {
    if n.collection in ps {
      ProjectKeeps(n.doc, PathsOf(ps[n.collection]), Split(field));
    }
  }

  /** The computed projection shows everything the traversal looks at. */
  lemma ProjectionIsFaithful(src: Source, edges: seq<Edge>, ps: Projections)
    requires IsProjection(ps, edges) && PlainDiscriminators(edges)
    requires forall n | src.Has(n) :: UniqueFields(n.doc) && src.view(n) == ProjectedView(ps, n)
    ensures Faithful(src, edges)
  {
    forall n | src.Has(n)
      ensures Get(src.view(n), "_id") == Get(n.doc, "_id")
    {
      ProjectedPath(ps, n, "_id");
      PlainKey(n.doc, "_id");
      PlainKey(src.view(n), "_id");
    }
    forall n, e | src.Has(n) && e in edges && e.fromCollection == n.collection
      ensures e.ResolveTarget(src.view(n)) == e.ResolveTarget(n.doc)
      ensures GetPath(src.view(n), e.fromField) == GetPath(n.doc, e.fromField)
    {
      assert Needs(edges, n.collection, e.fromField) && Asks(ps, n.collection, e.fromField);
      ProjectedPath(ps, n, e.fromField);
      if e.target.Polymorphic? {
        forall k <- e.target.cases
          ensures Get(src.view(n), k.field) == Get(n.doc, k.field)
        {
          assert k.field in CaseFields(e);
          assert Needs(edges, n.collection, k.field) && Asks(ps, n.collection, k.field);
          ProjectedPath(ps, n, k.field);
          PlainKey(n.doc, k.field);
          PlainKey(src.view(n), k.field);
        }
        FirstMatchReads(e.target.cases, src.view(n), n.doc);
      }
    }
  }

  /** A faithful view does not change which document refers to which, hence not the closure. */
  lemma FaithfulClosure(src: Source, edges: seq<Edge>, conds: Conditions, s: set<Node>)
    requires Faithful(src, edges)
    ensures IsClosure(src, edges, conds, s) <==> IsClosure(Whole(src.db), edges, conds, s)
  {
    var whole := Whole(src.db);
    forall n, m
      ensures Requires(src, edges, n, m) <==> Requires(whole, edges, n, m)
    {
      forall e <- edges
        ensures Follows(src, e, n, m) <==> Follows(whole, e, n, m)
      {
      }
    }
    forall n
      ensures Seed(src, conds, n) <==> Seed(whole, conds, n)
    {
    }
    forall big: set<Node>
      ensures Closed(src, edges, big) <==> Closed(whole, edges, big)
      ensures HoldsSeeds(src, conds, big) <==> HoldsSeeds(whole, conds, big)
    {
    }
  }
}
