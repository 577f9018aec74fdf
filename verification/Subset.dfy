/**
 Referential subsetting: a work-list traversal from the seeded documents along the declared
 references, proved to admit exactly the least set of documents that contains the seeds and is
 closed under resolved references, each document once.
 */
module Subset {
  import opened Wrappers
  import opened Paths
  import opened Bson
  import opened References
  import Mongo

  /** A document of the database, in its collection. */
  datatype Node = Node(collection: string, doc: Document)

  /**
   What the traversal reads from: the database, the view of a document it hands out (the whole
   document or a projection), the text a document is identified by, and which collections can be read.
   */
  datatype Source = Source(
    db: map<string, seq<Document>>,
    view: Node -> Document,
    docId: Document -> string,
    readable: string -> bool)
  {
    ghost predicate Has(n: Node) {
      n.collection in db && n.doc in db[n.collection]
    }

    ghost function Nodes(): set<Node> {
      set c, d | c in db.Keys && d in db[c] :: Node(c, d)
    }

    /** The matching documents of one collection, as views; a collection that cannot be read is an error. */
    function Fetch(collection: string, filter: Document): Result<seq<Document>, string> {
      if readable(collection) then Success(Views(Found(collection, filter))) else Failure("read failed")
    }

    function Found(collection: string, filter: Document): seq<Node> {
      if collection in db then Select(collection, db[collection], filter) else []
    }

    function Views(ns: seq<Node>): seq<Document> {
      seq(|ns|, i requires 0 <= i < |ns| => view(ns[i]))
    }

    function Key(collection: string, d: Document): string {
      collection + ":" + docId(d)
    }
  }

  function Select(collection: string, docs: seq<Document>, filter: Document): (r: seq<Node>)
    ensures forall n :: n in r <==> n.collection == collection && n.doc in docs && Mongo.Matches(n.doc, filter)
  {
    if docs == [] then []
    else (if Mongo.Matches(docs[0], filter) then [Node(collection, docs[0])] else []) +
         Select(collection, docs[1..], filter)
  }

  /** The filter a reference lookup sends: the referenced field equals the value. */
  function Lookup(e: Edge, v: Value): Document {
    Single(e.toField, v)
  }

  /** `n` refers to `m` through `e`, judging by the view of `n`. */
  ghost predicate Follows(src: Source, e: Edge, n: Node, m: Node) {
    var d := src.view(n);
    src.Has(n) && e.fromCollection == n.collection &&
    e.ResolveTarget(d) == Some(m.collection) &&
    GetPath(d, e.fromField).Some? &&
    src.Has(m) && Mongo.Matches(m.doc, Lookup(e, GetPath(d, e.fromField).value))
  }

  ghost predicate Requires(src: Source, edges: seq<Edge>, n: Node, m: Node) {
    exists e <- edges :: Follows(src, e, n, m)
  }

  /** The condition's filter on each seeded collection. */
  type Conditions = seq<(string, Document)>

  ghost predicate Seed(src: Source, conds: Conditions, n: Node) {
    src.Has(n) && exists c <- conds :: c.0 == n.collection && Mongo.Matches(n.doc, c.1)
  }

  ghost predicate HoldsSeeds(src: Source, conds: Conditions, s: set<Node>) {
    forall n :: Seed(src, conds, n) ==> n in s
  }

  ghost predicate Closed(src: Source, edges: seq<Edge>, s: set<Node>) {
    forall n, m :: n in s && Requires(src, edges, n, m) ==> m in s
  }

  ghost predicate Within(src: Source, edges: seq<Edge>, conds: Conditions, s: set<Node>) {
    forall big: set<Node> | HoldsSeeds(src, conds, big) && Closed(src, edges, big) :: s <= big
  }

  /** The least set of documents that contains the seeds and is closed under references. */
  ghost predicate IsClosure(src: Source, edges: seq<Edge>, conds: Conditions, s: set<Node>) {
    HoldsSeeds(src, conds, s) && Closed(src, edges, s) && Within(src, edges, conds, s)
  }

  /**
   A reference that holds null is followed like any other: with its document, a closure holds
   every document of the target collection whose referenced field is null or missing.
   */
  lemma NullReferencePullsIn(src: Source, edges: seq<Edge>, conds: Conditions, s: set<Node>, e: Edge, n: Node, m: Node)
    requires IsClosure(src, edges, conds, s) && n in s && src.Has(n) && e in edges && e.fromCollection == n.collection
    requires e.ResolveTarget(src.view(n)) == Some(m.collection) && GetPath(src.view(n), e.fromField) == Some(Null)
    requires src.Has(m) && !Mongo.IsOperator(e.toField) && Mongo.NoArrayAlong(m.doc, Split(e.toField))
    ensures Follows(src, e, n, m) <==> GetPath(m.doc, e.toField) == None || GetPath(m.doc, e.toField) == Some(Null)
    ensures GetPath(m.doc, e.toField) == None || GetPath(m.doc, e.toField) == Some(Null) ==> m in s
  {
    assert Mongo.Matches(m.doc, Lookup(e, Null)) == Mongo.Clause(m.doc, e.toField, Null);
    assert Follows(src, e, n, m) ==> Requires(src, edges, n, m);
  }

  /** Documents from a seeded one on, each of which requires the next. */
  ghost predicate Chain(src: Source, edges: seq<Edge>, conds: Conditions, path: seq<Node>) {
    path != [] && Seed(src, conds, path[0]) &&
    forall i | 0 <= i < |path| - 1 :: Requires(src, edges, path[i], path[i + 1])
  }

  ghost predicate Reached(src: Source, edges: seq<Edge>, conds: Conditions, n: Node) {
    exists path :: Chain(src, edges, conds, path) && path[|path| - 1] == n
  }

  lemma SeedIsReached(src: Source, edges: seq<Edge>, conds: Conditions, n: Node)
    requires Seed(src, conds, n)
    ensures Reached(src, edges, conds, n)
  {
    hide Seed, Requires;
    assert Chain(src, edges, conds, [n]) && [n][|[n]| - 1] == n;
  }

  lemma NextIsReached(src: Source, edges: seq<Edge>, conds: Conditions, n: Node, m: Node)
    requires Reached(src, edges, conds, n) && Requires(src, edges, n, m)
    ensures Reached(src, edges, conds, m)
  {
    hide Seed, Requires;
    var p :| Chain(src, edges, conds, p) && p[|p| - 1] == n;
    var longer := p + [m];
    assert Chain(src, edges, conds, longer) && longer[|longer| - 1] == m;
  }

  /** Nothing is in a closure without a reason: a chain of references leads to it from a seeded document. */
  lemma ClosureIsReached(src: Source, edges: seq<Edge>, conds: Conditions, s: set<Node>, n: Node)
    returns (path: seq<Node>)
    requires IsClosure(src, edges, conds, s) && n in s
    ensures Chain(src, edges, conds, path) && path[|path| - 1] == n
  {
    hide Seed, Requires, Chain, Reached;
    var reached := set m | m in s && Reached(src, edges, conds, m);
    forall m | Seed(src, conds, m)
      ensures m in reached
    {
      SeedIsReached(src, edges, conds, m);
    }
    forall a, b | a in reached && Requires(src, edges, a, b)
      ensures b in reached
    {
      NextIsReached(src, edges, conds, a, b);
    }
    assert s <= reached;
    path := PathTo(src, edges, conds, n);
  }

  lemma PathTo(src: Source, edges: seq<Edge>, conds: Conditions, n: Node) returns (path: seq<Node>)
    requires Reached(src, edges, conds, n)
    ensures Chain(src, edges, conds, path) && path[|path| - 1] == n
  {
    path :| Chain(src, edges, conds, path) && path[|path| - 1] == n;
  }

  /** The server finds by a lookup the documents whose field equals the value, and no others. */
  lemma LookupMeans(d: Document, e: Edge, v: Value)
    requires !Mongo.IsOperator(e.toField) && !(v.Doc? && v.doc.Field? && Mongo.IsOperator(v.doc.key))
    ensures Mongo.Matches(d, Lookup(e, v)) <==> Mongo.Equals(GetPath(d, e.toField), v)
  {
    assert Mongo.Matches(d, Lookup(e, v)) == Mongo.Clause(d, e.toField, v);
  }

  lemma ClosureIsUnique(src: Source, edges: seq<Edge>, conds: Conditions, s: set<Node>, t: set<Node>)
    requires IsClosure(src, edges, conds, s) && IsClosure(src, edges, conds, t)
    ensures s == t
  {
  }

  /** The visited key tells the documents of the database apart. */
  ghost predicate DistinctKeys(src: Source) {
    forall n, m | src.Has(n) && src.Has(m) :: KeyOf(src, n) == KeyOf(src, m) ==> n == m
  }

  function KeyOf(src: Source, n: Node): string {
    src.Key(n.collection, src.view(n))
  }

  ghost function Elements(ns: seq<Node>): set<Node> {
    set n | n in ns
  }

  ghost predicate NoDuplicates(ns: seq<Node>) {
    forall i, j | 0 <= i < j < |ns| :: ns[i] != ns[j]
  }

  /** The mutable state of one traversal. */
  class Traversal {
    var visited: set<string>
    var work: seq<(string, Document)>
    var admitted: seq<(string, Document)>
    ghost var nodes: seq<Node>
    ghost var pending: seq<Node>

    constructor ()
      ensures visited == {} && work == [] && admitted == [] && nodes == [] && pending == []
    {
      visited, work, admitted := {}, [], [];
      nodes, pending := [], [];
    }

    ghost predicate Valid(src: Source)
      reads this
    {
      |admitted| == |nodes| &&
      (forall i | 0 <= i < |nodes| :: admitted[i] == (nodes[i].collection, src.view(nodes[i]))) &&
      |work| == |pending| && (forall i | 0 <= i < |work| :: work[i] == (pending[i].collection, src.view(pending[i]))) &&
      (forall n <- nodes :: src.Has(n)) && (forall n <- pending :: n in nodes) &&
      NoDuplicates(nodes) && visited == (set n | n in nodes :: KeyOf(src, n))
    }

    lemma ValidMeans(src: Source)
      requires Valid(src)
      ensures ViewsOf(src, admitted, nodes) && NoDuplicates(nodes) && |work| == |pending|
      ensures forall n <- nodes :: src.Has(n)
    {
    }

    /** Record a document as included and queue it, unless it already was. */
    method Admit(src: Source, collection: string, doc: Document, ghost n: Node)
      requires Valid(src) && DistinctKeys(src) && src.Has(n) && n.collection == collection && doc == src.view(n)
      modifies this
      ensures Valid(src)
      ensures if n in old(nodes) then nodes == old(nodes) && pending == old(pending)
              else nodes == old(nodes) + [n] && pending == old(pending) + [n]
      ensures if n in old(nodes) then admitted == old(admitted) && work == old(work)
              else admitted == old(admitted) + [(collection, doc)] && work == old(work) + [(collection, doc)]
    {
      var key := src.Key(collection, doc);
      assert key == KeyOf(src, n);
      if key in visited {
        assert exists m <- nodes :: KeyOf(src, m) == key;
        return;
      }
      assert n !in nodes;
      visited := visited + {key};
      admitted := admitted + [(collection, doc)];
      work := work + [(collection, doc)];
      nodes := nodes + [n];
      pending := pending + [n];
    }

    /** Admit the documents a lookup or a seed query found, in order. */
    method AdmitAll(src: Source, collection: string, found: seq<Document>, ghost ns: seq<Node>)
      returns (ghost added: seq<Node>)
      requires Valid(src) && DistinctKeys(src)
      requires found == src.Views(ns) && forall n <- ns :: src.Has(n) && n.collection == collection
      modifies this
      ensures Valid(src) && nodes == old(nodes) + added && pending == old(pending) + added
      ensures (forall n <- added :: n in ns) && (forall n <- ns :: n in nodes)
    {
      added := [];
      for i := 0 to |found|
        invariant Valid(src) && nodes == old(nodes) + added && pending == old(pending) + added
        invariant (forall n <- added :: n in ns) && (forall k | 0 <= k < i :: ns[k] in nodes)
      {
        if ns[i] !in nodes {
          added := added + [ns[i]];
        }
        Admit(src, collection, found[i], ns[i]);
      }
    }

    /** Seed from every conditioned collection; stops at the first one that cannot be read. */
    method SeedAll(src: Source, conds: Conditions) returns (failed: Option<string>)
      requires Valid(src) && DistinctKeys(src) && nodes == [] && pending == []
      modifies this
      ensures Valid(src) && pending == nodes && forall n <- nodes :: Seed(src, conds, n)
      ensures failed == None ==> HoldsSeeds(src, conds, Elements(nodes))
      ensures failed.Some? ==> !src.readable(failed.value) && IsConditioned(conds, failed.value)
    {
      for i := 0 to |conds|
        invariant Valid(src) && pending == nodes
        invariant forall n <- nodes :: Seed(src, conds, n)
        invariant forall n | src.Has(n) ::
                    (exists k | 0 <= k < i :: conds[k].0 == n.collection && Mongo.Matches(n.doc, conds[k].1)) ==>
                      n in nodes
      {
        var (collection, filter) := conds[i];
        match src.Fetch(collection, filter)
        case Failure(_) =>
          assert conds[i] in conds;
          return Some(collection);
        case Success(found) =>
          ghost var ns := src.Found(collection, filter);
          ghost var added := AdmitAll(src, collection, found, ns);
          forall n <- added
            ensures Seed(src, conds, n)
          {
            assert conds[i] in conds;
          }
      }
      failed := None;
    }

    /** Take the last queued document off the work list. */
    method Pop(src: Source) returns (collection: string, doc: Document, ghost n: Node)
      requires Valid(src) && work != []
      modifies this
      ensures Valid(src) && nodes == old(nodes) && admitted == old(admitted)
      ensures |old(work)| == |old(pending)| && pending == old(pending)[..|old(work)| - 1] &&
              n == old(pending)[|old(work)| - 1]
      ensures work == old(work)[..|old(work)| - 1] && (collection, doc) == old(work)[|old(work)| - 1]
      ensures n in nodes && src.Has(n) && collection == n.collection && doc == src.view(n)
    {
      var last := |work| - 1;
      collection, doc := work[last].0, work[last].1;
      n := pending[last];
      assert n in pending;
      work, pending := work[..last], pending[..last];
    }

    /** Follow one reference of one document: admit everything its lookup finds. */
    method FollowEdge(src: Source, edge: Edge, doc: Document, ghost n: Node)
      returns (failed: Option<string>, ghost added: seq<Node>)
      requires Valid(src) && DistinctKeys(src) && src.Has(n) && doc == src.view(n) &&
               edge.fromCollection == n.collection
      modifies this
      ensures Valid(src) && nodes == old(nodes) + added && pending == old(pending) + added
      ensures forall m <- added :: Follows(src, edge, n, m)
      ensures failed == None ==> forall m | Follows(src, edge, n, m) :: m in nodes
      ensures failed.Some? ==> !src.readable(failed.value) && failed.value in edge.TargetCollections()
    {
      added := [];
      var target := edge.ResolveTarget(doc);
      if target == None {
        return None, added;
      }
      var value := GetPath(doc, edge.fromField);
      if value == None {
        return None, added;
      }
      var filter := Lookup(edge, value.value);
      ghost var ns := src.Found(target.value, filter);
      forall m
        ensures Follows(src, edge, n, m) <==> m in ns
      {
      }
      match src.Fetch(target.value, filter)
      case Failure(_) =>
        ResolvedIsTarget(edge, doc);
        failed := Some(target.value);
      case Success(found) =>
        added := AdmitAll(src, target.value, found, ns);
        failed := None;
    }

    /** Follow every reference of one document taken off the work list. */
    method Expand(src: Source, edges: seq<Edge>, collection: string, doc: Document, ghost n: Node)
      returns (failed: Option<string>, ghost added: seq<Node>)
      requires Valid(src) && DistinctKeys(src) && src.Has(n) && collection == n.collection && doc == src.view(n)
      modifies this
      ensures Valid(src) && nodes == old(nodes) + added && pending == old(pending) + added
      ensures forall m <- added :: Requires(src, edges, n, m)
      ensures failed == None ==> forall m | Requires(src, edges, n, m) :: m in nodes
      ensures failed.Some? ==> !src.readable(failed.value) && IsTarget(edges, failed.value)
    {
      hide Follows, Valid, DistinctKeys;
      added := [];
      failed := None;
      var refs := ReferencesFrom(edges, collection);
      for i := 0 to |refs|
        invariant Valid(src) && nodes == old(nodes) + added && pending == old(pending) + added
        invariant forall m <- added :: Requires(src, edges, n, m)
        invariant forall k, m | 0 <= k < i && Follows(src, refs[k], n, m) :: m in nodes
      {
        assert refs[i] in refs;
        ghost var more;
        failed, more := FollowEdge(src, refs[i], doc, n);
        added := added + more;
        if failed.Some? {
          return;
        }
      }
      failed := None;
      forall m | Requires(src, edges, n, m)
        ensures m in nodes
      {
        var e :| e in edges && Follows(src, e, n, m);
        FollowsFrom(src, e, n, m);
        var k :| 0 <= k < |refs| && refs[k] == e;
      }
    }
  }

  lemma FollowsFrom(src: Source, e: Edge, n: Node, m: Node)
    requires Follows(src, e, n, m)
    ensures e.fromCollection == n.collection
  {
  }

  ghost predicate IsConditioned(conds: Conditions, collection: string) {
    exists c <- conds :: c.0 == collection
  }

  ghost predicate IsTarget(edges: seq<Edge>, collection: string) {
    exists e <- edges :: collection in e.TargetCollections()
  }

  /** Every admitted document that is off the work list has all its references admitted. */
  ghost predicate ReferencesAdmitted(src: Source, edges: seq<Edge>, nodes: seq<Node>, pending: seq<Node>) {
    forall n, m | n in nodes && n !in pending && Requires(src, edges, n, m) :: m in nodes
  }

  /** What holds between two rounds of the loop. */
  ghost predicate Progress(src: Source, edges: seq<Edge>, conds: Conditions, nodes: seq<Node>, pending: seq<Node>) {
    HoldsSeeds(src, conds, Elements(nodes)) && Within(src, edges, conds, Elements(nodes)) &&
    ReferencesAdmitted(src, edges, nodes, pending)
  }

  lemma ProgressFromSeeds(src: Source, edges: seq<Edge>, conds: Conditions, nodes: seq<Node>)
    requires HoldsSeeds(src, conds, Elements(nodes)) && forall n <- nodes :: Seed(src, conds, n)
    ensures Progress(src, edges, conds, nodes, nodes)
  {
  }

  /** Any queued document may be taken next: expanding it keeps the loop on its way to the closure. */
  lemma TakingAnyKeepsProgress(src: Source, edges: seq<Edge>, conds: Conditions, nodes: seq<Node>, pending: seq<Node>,
                               k: nat, added: seq<Node>)
    requires Progress(src, edges, conds, nodes, pending) && k < |pending| && pending[k] in nodes
    requires forall m <- added :: Requires(src, edges, pending[k], m)
    requires forall m | Requires(src, edges, pending[k], m) :: m in nodes + added
    ensures Progress(src, edges, conds, nodes + added, (pending[..k] + pending[k + 1..]) + added)
  {
    var n := pending[k];
    var left := (pending[..k] + pending[k + 1..]) + added;
    assert forall m | m in pending && m != n :: m in left by {
      forall m | m in pending && m != n
        ensures m in left
      {
        var i :| 0 <= i < |pending| && pending[i] == m;
        assert if i < k then left[i] == m else left[i - 1] == m;
      }
    }
  }

  lemma NothingPendingIsClosure(src: Source, edges: seq<Edge>, conds: Conditions, nodes: seq<Node>)
    requires Progress(src, edges, conds, nodes, [])
    ensures IsClosure(src, edges, conds, Elements(nodes))
  {
  }

  lemma FewerLeft(all: set<Node>, nodes: seq<Node>, added: seq<Node>)
    requires NoDuplicates(nodes + added) && added != [] && forall n <- nodes + added :: n in all
    ensures |all - Elements(nodes + added)| < |all - Elements(nodes)|
  {
    var n := added[0];
    assert (nodes + added)[|nodes|] == n;
    assert n !in nodes by {
      assert forall k | 0 <= k < |nodes| :: (nodes + added)[k] == nodes[k];
    }
    SmallerSet(all - Elements(nodes + added), all - Elements(nodes), n);
  }

  lemma SmallerSet(a: set<Node>, b: set<Node>, n: Node)
    requires a <= b && n in b && n !in a
    ensures |a| < |b|
  {
    Cardinality(a, b - {n});
  }

  lemma Cardinality(a: set<Node>, b: set<Node>)
    requires a <= b
    ensures |a| <= |b|
  {
    if a != {} {
      var x :| x in a;
      Cardinality(a - {x}, b - {x});
    }
  }

  /** A read that failed was needed: the collection carries a condition or is a reference target. */
  ghost predicate NeededCollection(edges: seq<Edge>, conds: Conditions, collection: string) {
    IsConditioned(conds, collection) || IsTarget(edges, collection)
  }

  /** The documents handed out, in order of admission, are the views of these nodes. */
  ghost predicate ViewsOf(src: Source, out: seq<(string, Document)>, nodes: seq<Node>) {
    |out| == |nodes| && forall i | 0 <= i < |nodes| :: out[i] == (nodes[i].collection, src.view(nodes[i]))
  }

  /**
   The traversal. On success it has admitted the closure, each document once; it fails only
   because a collection it needs cannot be read, and never returns a smaller closure.
   */
  method Traverse(src: Source, edges: seq<Edge>, conds: Conditions)
    returns (r: Result<seq<(string, Document)>, string>, ghost nodes: seq<Node>)
    requires DistinctKeys(src)
    ensures r.Success? ==> ViewsOf(src, r.value, nodes) && NoDuplicates(nodes)
    ensures r.Success? ==> IsClosure(src, edges, conds, Elements(nodes))
    ensures r.Success? ==> forall n <- nodes :: src.Has(n)
    ensures r.Failure? ==> exists c :: NeededCollection(edges, conds, c) && !src.readable(c)
  {
    hide Progress, IsClosure, Requires, HoldsSeeds, Elements, IsConditioned, IsTarget, DistinctKeys, Seed;
    hide Traversal.Valid;
    var t := new Traversal();
    var failed := t.SeedAll(src, conds);
    if failed.Some? {
      assert NeededCollection(edges, conds, failed.value);
      return Failure("read failed"), [];
    }
    ProgressFromSeeds(src, edges, conds, t.nodes);
    while t.work != []
      invariant fresh(t) && t.Valid(src)
      invariant Progress(src, edges, conds, t.nodes, t.pending)
      decreases |src.Nodes() - Elements(t.nodes)|, |t.work|
    {
      ghost var nodes0, pending0, last := t.nodes, t.pending, |t.work| - 1;
      ghost var n, added;
      t.ValidMeans(src);
      var collection, doc;
      collection, doc, n := t.Pop(src);
      failed, added := t.Expand(src, edges, collection, doc, n);
      if failed.Some? {
        assert NeededCollection(edges, conds, failed.value);
        return Failure("read failed"), [];
      }
      TakingAnyKeepsProgress(src, edges, conds, nodes0, pending0, last, added);
      assert pending0[..last] + pending0[last + 1..] == pending0[..last];
      t.ValidMeans(src);
      if added == [] {
        assert nodes0 + added == nodes0;
      } else {
        FewerLeft(src.Nodes(), nodes0, added);
      }
    }
    t.ValidMeans(src);
    NothingPendingIsClosure(src, edges, conds, t.nodes);
    nodes := t.nodes;
    r := Success(t.admitted);
  }
}
