/**
 From a computed closure to the dump: the ids that were admitted, the collections the subset
 governs, the `_id` filters, and what a dump filtered by them contains. The main result is
 that such a dump is referentially intact and holds nothing beyond the closure.
 */
module DumpPlan {
  import opened Wrappers
  import opened Bson
  import opened References
  import opened Subset
  import opened Projection
  import Paths
  import Condition
  import Mongo

  type Database = map<string, seq<Document>>

  type Filters = map<string, Document>

  // Ids of the closure.

  type Ids = map<string, seq<Value>>

  predicate HasId(ids: Ids, collection: string, id: Value) {
    collection in ids && id in ids[collection]
  }

  function AddId(ids: Ids, collection: string, id: Value): Ids {
    ids[collection := (if collection in ids then ids[collection] else []) + [id]]
  }

  lemma AddIdHas(ids: Ids, collection: string, id: Value)
    ensures forall c, x :: HasId(AddId(ids, collection, id), c, x) <==> HasId(ids, c, x) || (c == collection && x == id)
  {
  }

  /** The ids of documents, per collection, in the order they were admitted; one without `_id` is skipped. */
  function CollectIds(admitted: seq<(string, Document)>): Ids {
    if admitted == [] then map[]
    else
      var last := |admitted| - 1;
      var before := CollectIds(admitted[..last]);
      match Get(admitted[last].1, "_id")
      case Some(id) => AddId(before, admitted[last].0, id)
      case None => before
  }

  function Admitted(src: Source, nodes: seq<Node>): seq<(string, Document)> {
    seq(|nodes|, i requires 0 <= i < |nodes| => (nodes[i].collection, src.view(nodes[i])))
  }

  lemma {:induction false} CollectedIds(src: Source, nodes: seq<Node>)
    ensures forall c, id :: HasId(CollectIds(Admitted(src, nodes)), c, id) <==>
              exists n <- nodes :: n.collection == c && Get(src.view(n), "_id") == Some(id)
  {
    hide AddId;
    if nodes != [] {
      var last := |nodes| - 1;
      var n := nodes[last];
      CollectedIds(src, nodes[..last]);
      assert Admitted(src, nodes)[..last] == Admitted(src, nodes[..last]);
      assert forall x :: x in nodes <==> x in nodes[..last] || x == n by {
        assert nodes == nodes[..last] + [n];
      }
      if Get(src.view(n), "_id").Some? {
        AddIdHas(CollectIds(Admitted(src, nodes[..last])), n.collection, Get(src.view(n), "_id").value);
      }
    }
  }

  /** Keep only the identity of every admitted document. */
  method ComputeIds(src: Source, edges: seq<Edge>, conds: Conditions)
    returns (r: Result<Ids, string>, ghost nodes: seq<Node>)
    requires DistinctKeys(src)
    ensures r.Success? ==> IsClosure(src, edges, conds, Elements(nodes)) && forall n <- nodes :: src.Has(n)
    ensures r.Success? ==> NoDuplicates(nodes) && r.value == CollectIds(Admitted(src, nodes))
    ensures r.Success? ==> forall c, id :: HasId(r.value, c, id) <==>
              exists n <- nodes :: n.collection == c && Get(src.view(n), "_id") == Some(id)
    ensures r.Failure? ==> exists c :: NeededCollection(edges, conds, c) && !src.readable(c)
  {
    hide IsClosure, NeededCollection, DistinctKeys, HasId;
    var traversed;
    traversed, nodes := Traverse(src, edges, conds);
    match traversed
    case Failure(e) => r := Failure(e);
    case Success(admitted) =>
      assert admitted == Admitted(src, nodes);
      var ids: Ids := map[];
      for i := 0 to |admitted|
        invariant ids == CollectIds(admitted[..i])
      {
        var (collection, doc) := admitted[i];
        assert admitted[..i + 1][..i] == admitted[..i];
        match Get(doc, "_id")
        case Some(id) => ids := AddId(ids, collection, id);
        case None =>
      }
      assert admitted[..|admitted|] == admitted;
      CollectedIds(src, nodes);
      r := Success(ids);
  }

  // Governed collections and their filters.

  ghost predicate Mentioned(edges: seq<Edge>, collection: string) {
    exists e <- edges :: e.fromCollection == collection || collection in e.TargetCollections()
  }

  /** Every collection with a condition of its own or on either end of a reference. */
  method GovernedCollections(edges: seq<Edge>, conds: Conditions) returns (governed: set<string>)
    ensures forall c :: c in governed <==> IsConditioned(conds, c) || Mentioned(edges, c)
  {
    governed := set c | c in conds :: c.0;
    for i := 0 to |edges|
      invariant forall c :: c in governed <==> IsConditioned(conds, c) || Mentioned(edges[..i], c)
    {
      governed := governed + {edges[i].fromCollection} + set c | c in edges[i].TargetCollections();
      assert edges[..i + 1] == edges[..i] + [edges[i]];
    }
    assert edges[..|edges|] == edges;
  }

  function IdFilter(ids: seq<Value>): Document {
    Single("_id", Doc(Single("$in", Arr(ids))))
  }

  function IdMembershipFilters(governed: set<string>, ids: Ids): Filters {
    map c | c in governed :: IdFilter(if c in ids then ids[c] else [])
  }

  // The dump.

  /** What a dump of one collection reads: the filtered documents, or all where there is no filter. */
  ghost predicate Dumped(db: Database, filters: Filters, n: Node) {
    n.collection in db && n.doc in db[n.collection] &&
    (n.collection in filters ==> Mongo.Matches(n.doc, filters[n.collection]))
  }

  lemma IdFilterMeans(d: Document, ids: seq<Value>)
    ensures Mongo.Matches(d, IdFilter(ids)) <==> exists id <- ids :: Mongo.Equals(GetPath(d, "_id"), id)
  {
    var ops := Single("$in", Arr(ids));
    assert Mongo.AllOperators(GetPath(d, "_id"), ops) == Mongo.Operator(GetPath(d, "_id"), "$in", Arr(ids));
  }

  // What is assumed of a database: identities as MongoDB guarantees them.

  ghost predicate UniqueIds(db: Database) {
    (forall c, d | c in db && d in db[c] :: Get(d, "_id").Some?) &&
    forall c, d, e | c in db && d in db[c] && e in db[c] ::
      Mongo.SameValue(Get(d, "_id").value, Get(e, "_id").value) ==> d == e
  }

  ghost predicate WellFormed(db: Database) {
    forall c, d | c in db && d in db[c] :: UniqueFields(d)
  }

  /** Two ids of one collection render alike only when the server takes them for the same value. */
  ghost predicate TellsIdsApart(db: Database, show: Value -> string) {
    forall c, d, e | c in db && d in db[c] && e in db[c] && Get(d, "_id").Some? && Get(e, "_id").Some? ::
      show(Get(d, "_id").value) == show(Get(e, "_id").value) ==>
        Mongo.SameValue(Get(d, "_id").value, Get(e, "_id").value)
  }

  predicate ColonFree(s: string) {
    ':' !in s
  }

  lemma {:induction false} KeyParts(a: string, x: string, b: string, y: string)
    requires ColonFree(a) && ColonFree(b) && a + ":" + x == b + ":" + y
    ensures a == b && x == y
  {
    var s, t := a + ":" + x, b + ":" + y;
    assert s[|a|] == ':' && t[|b|] == ':';
    assert forall i | 0 <= i < |a| :: s[i] == a[i] && a[i] in a;
    assert forall i | 0 <= i < |b| :: t[i] == b[i] && b[i] in b;
    assert s[..|a|] == a && t[..|b|] == b && s[|a| + 1..] == x && t[|b| + 1..] == y;
  }

  /** A live database read through projections; a projection with colliding paths is refused by the server. */
  function MongoSource(db: Database, ps: Projections, show: Value -> string, debug: Document -> string,
                       available: string -> bool): Source
  {
    Source(db,
           (n: Node) => ProjectedView(ps, n),
           (d: Document) => (match Get(d, "_id") case Some(id) => show(id) case None => debug(d)),
           (c: string) => available(c) && (c in ps ==> NoCollision(ps[c])))
  }

  /** The text key `collection:id` tells documents apart when names hold no colon and ids are unique. */
  lemma KeysAreDistinct(db: Database, ps: Projections, show: Value -> string, debug: Document -> string,
                        available: string -> bool, edges: seq<Edge>)
    requires UniqueIds(db) && TellsIdsApart(db, show) && forall c <- db :: ColonFree(c)
    requires Faithful(MongoSource(db, ps, show, debug, available), edges)
    ensures DistinctKeys(MongoSource(db, ps, show, debug, available))
  {
    hide ProjectedView;
    var src := MongoSource(db, ps, show, debug, available);
    forall n, m | src.Has(n) && src.Has(m) && KeyOf(src, n) == KeyOf(src, m)
      ensures n == m
    {
      assert Get(src.view(n), "_id") == Get(n.doc, "_id") && Get(src.view(m), "_id") == Get(m.doc, "_id");
      KeyParts(n.collection, src.docId(src.view(n)), m.collection, src.docId(src.view(m)));
    }
  }

  /** `n` refers to `m` in the database itself. */
  ghost predicate Refers(db: Database, edges: seq<Edge>, n: Node, m: Node) {
    n.collection in db && n.doc in db[n.collection] && m.collection in db && m.doc in db[m.collection] &&
    exists e <- edges :: RefersBy(e, n, m)
  }

  ghost predicate RefersBy(e: Edge, n: Node, m: Node) {
    e.fromCollection == n.collection && e.ResolveTarget(n.doc) == Some(m.collection) &&
    GetPath(n.doc, e.fromField).Some? && Mongo.Matches(m.doc, Lookup(e, GetPath(n.doc, e.fromField).value))
  }

  /** Every reference of a dumped document finds all its matching targets in the dump. */
  ghost predicate Intact(db: Database, edges: seq<Edge>, filters: Filters) {
    forall n, m | Dumped(db, filters, n) && Refers(db, edges, n, m) :: Dumped(db, filters, m)
  }

  /** The filters select the closure from the collections they govern, and govern all it reaches. */
  ghost predicate SelectsClosure(db: Database, edges: seq<Edge>, filters: Filters, closure: set<Node>) {
    (forall n: Node | n.collection in filters :: Dumped(db, filters, n) <==> n in closure) &&
    (forall n <- closure :: n.collection in filters) &&
    (forall e <- edges :: e.fromCollection in filters && forall c <- e.TargetCollections() :: c in filters)
  }

  lemma SelectingClosureIsIntact(src: Source, edges: seq<Edge>, conds: Conditions, filters: Filters, closure: set<Node>)
    requires IsClosure(Whole(src.db), edges, conds, closure) && SelectsClosure(src.db, edges, filters, closure)
    ensures Intact(src.db, edges, filters)
  {
    forall n, m | Dumped(src.db, filters, n) && Refers(src.db, edges, n, m)
      ensures Dumped(src.db, filters, m)
    {
      var e :| e in edges && RefersBy(e, n, m);
      assert n in closure;
      assert Follows(Whole(src.db), e, n, m);
      assert Requires(Whole(src.db), edges, n, m);
    }
  }

  lemma SelectsClosureFrom(db: Database, edges: seq<Edge>, filters: Filters, closure: set<Node>)
    requires forall n: Node | n.collection in filters :: Dumped(db, filters, n) <==> n in closure
    requires forall n <- closure :: n.collection in filters
    requires forall c | Mentioned(edges, c) :: c in filters
    ensures SelectsClosure(db, edges, filters, closure)
  {
    forall e <- edges
      ensures e.fromCollection in filters && forall c <- e.TargetCollections() :: c in filters
    {
      assert Mentioned(edges, e.fromCollection);
      assert forall c <- e.TargetCollections() :: Mentioned(edges, c);
    }
  }

  lemma ClosureIsGoverned(src: Source, edges: seq<Edge>, conds: Conditions, closure: set<Node>, governed: set<string>)
    requires IsClosure(src, edges, conds, closure)
    requires forall c :: c in governed <==> IsConditioned(conds, c) || Mentioned(edges, c)
    ensures forall n <- closure :: n.collection in governed
  {
    var inside := set n | n in closure && n.collection in governed;
    forall n | Seed(src, conds, n)
      ensures n in inside
    {
      assert IsConditioned(conds, n.collection);
    }
    forall n, m | n in inside && Requires(src, edges, n, m)
      ensures m in inside
    {
      var e :| e in edges && Follows(src, e, n, m);
      ResolvedIsTarget(e, src.view(n));
      assert Mentioned(edges, m.collection);
    }
    assert closure <= inside;
  }

  lemma FiltersSelectClosure(src: Source, edges: seq<Edge>, nodes: seq<Node>, governed: set<string>, ids: Ids)
    requires Faithful(src, edges) && UniqueIds(src.db) && forall n <- nodes :: src.Has(n)
    requires forall c, id :: HasId(ids, c, id) <==>
               exists n <- nodes :: n.collection == c && Get(src.view(n), "_id") == Some(id)
    requires forall n <- nodes :: n.collection in governed
    ensures var filters := IdMembershipFilters(governed, ids);
            forall n: Node | n.collection in filters :: Dumped(src.db, filters, n) <==> n in Elements(nodes)
  {
    var filters := IdMembershipFilters(governed, ids);
    forall n: Node | n.collection in filters && src.Has(n)
      ensures Mongo.Matches(n.doc, filters[n.collection]) <==> n in Elements(nodes)
    {
      var selected := if n.collection in ids then ids[n.collection] else [];
      var id := Get(n.doc, "_id").value;
      IdFilterMeans(n.doc, selected);
      PlainKey(n.doc, "_id");
      if n in nodes {
        assert HasId(ids, n.collection, id);
        assert id in selected && Mongo.Equals(Some(id), id);
      }
      forall x | x in selected && Mongo.SameValue(id, x)
        ensures n in nodes
      {
        assert HasId(ids, n.collection, x);
        var m :| m in nodes && m.collection == n.collection && Get(src.view(m), "_id") == Some(x);
        assert src.Has(m) && Get(m.doc, "_id") == Some(x);
      }
    }
  }

  /** The server refuses this collection's projection: one of its paths lies inside another. */
  ghost predicate Refused(edges: seq<Edge>, collection: string) {
    exists ps | IsProjection(ps, edges) :: collection in ps && !NoCollision(ps[collection])
  }

  /** The plan of a referential subset over one database. */
  method SubsetFilters(db: Database, edges: seq<Edge>, conds: Conditions, show: Value -> string,
                       debug: Document -> string, available: string -> bool)
    returns (r: Result<Filters, string>, ghost closure: set<Node>)
    requires UniqueIds(db) && WellFormed(db) && TellsIdsApart(db, show) && (forall c <- db :: ColonFree(c))
    requires PlainDiscriminators(edges)
    ensures r.Success? ==> IsClosure(Whole(db), edges, conds, closure)
    ensures r.Success? ==> SelectsClosure(db, edges, r.value, closure) && Intact(db, edges, r.value)
    ensures r.Success? ==> forall c :: c in r.value <==> IsConditioned(conds, c) || Mentioned(edges, c)
    ensures r.Failure? ==> exists c :: NeededCollection(edges, conds, c) && (available(c) ==> Refused(edges, c))
  {
    hide NeededCollection;
    hide IsClosure, TellsIdsApart, Project, SelectsClosure, Intact, Faithful, DistinctKeys;
    var lists := BuildProjections(edges);
    var ps := SetsOf(lists);
    var src := MongoSource(db, ps, show, debug, available);
    ProjectionIsFaithful(src, edges, ps);
    KeysAreDistinct(db, ps, show, debug, available, edges);
    var ids;
    ghost var nodes;
    ids, nodes := ComputeIds(src, edges, conds);
    if ids.Failure? {
      ghost var c :| NeededCollection(edges, conds, c) && !src.readable(c);
      assert available(c) ==> Refused(edges, c);
      return Failure(ids.error), {};
    }
    var governed := GovernedCollections(edges, conds);
    var filters := IdMembershipFilters(governed, ids.value);
    closure := Elements(nodes);
    ClosureIsGoverned(src, edges, conds, closure, governed);
    FaithfulClosure(src, edges, conds, closure);
    FiltersSelectClosure(src, edges, nodes, governed, ids.value);
    SelectsClosureFrom(db, edges, filters, closure);
    SelectingClosureIsIntact(src, edges, conds, filters, closure);
    r := Success(filters);
  }

  // From configured condition texts to the filters of a dump.

  /** `subset_conds`: collection and condition text, one per collection. */
  type Conds = seq<(string, string)>

  predicate OnePerCollection(conds: Conds) {
    forall i, j | 0 <= i < j < |conds| :: conds[i].0 != conds[j].0
  }

  predicate Evaluable(lang: Condition.Lang, conds: Conds) {
    forall c <- conds :: Condition.AllReadable(Condition.Terms(lang, c.1))
  }

  function CompiledFilters(lang: Condition.Lang, conds: Conds): Conditions
    requires Evaluable(lang, conds)
  {
    seq(|conds|, i requires 0 <= i < |conds| => assert conds[i] in conds;
        (conds[i].0, Condition.ToFilter(lang, conds[i].1)))
  }

  predicate AllParse(conds: Conds) {
    forall c <- conds :: Condition.Parse(c.1).Success?
  }

  ghost predicate DistinctCollections(conds: Conditions) {
    forall i, j | 0 <= i < j < |conds| :: conds[i].0 != conds[j].0
  }

  ghost predicate FiltersByOwn(conds: Conditions, filters: Filters) {
    (forall c :: c in filters <==> IsConditioned(conds, c)) &&
    forall c <- conds :: c.0 in filters && filters[c.0] == c.1
  }

  /** The path without subsetting: each condition filters its own collection. */
  method PushDown(conds: Conditions) returns (filters: Filters)
    requires DistinctCollections(conds)
    ensures FiltersByOwn(conds, filters)
  {
    filters := map[];
    for i := 0 to |conds|
      invariant forall c :: c in filters <==> exists k | 0 <= k < i :: conds[k].0 == c
      invariant forall k | 0 <= k < i :: filters[conds[k].0] == conds[k].1
    {
      filters := filters[conds[i].0 := conds[i].1];
    }
  }

  /** Without references, or without conditions, nothing a dumped document refers to can be missing. */
  lemma TriviallyIntact(db: Database, edges: seq<Edge>, conds: Conditions, filters: Filters)
    requires edges == [] || conds == []
    requires FiltersByOwn(conds, filters)
    ensures Intact(db, edges, filters)
  {
  }

  ghost predicate Selects(db: Database, cond: (string, Document), n: Node) {
    cond.0 == n.collection && n.collection in db && n.doc in db[n.collection] && Mongo.Matches(n.doc, cond.1)
  }

  /** A document its collection's condition selects is in the dump. */
  ghost predicate KeepsSelected(db: Database, conds: Conditions, filters: Filters) {
    forall n: Node, c | c in conds && Selects(db, c, n) :: Dumped(db, filters, n)
  }

  lemma ClosureKeepsSelected(db: Database, edges: seq<Edge>, conds: Conditions, filters: Filters, closure: set<Node>)
    requires IsClosure(Whole(db), edges, conds, closure) && SelectsClosure(db, edges, filters, closure)
    ensures KeepsSelected(db, conds, filters)
  {
    forall n: Node, c | c in conds && Selects(db, c, n)
      ensures Dumped(db, filters, n)
    {
      assert Seed(Whole(db), conds, n);
      assert n in closure;
    }
  }

  lemma PushDownKeepsSelected(db: Database, conds: Conditions, filters: Filters)
    requires DistinctCollections(conds) && FiltersByOwn(conds, filters)
    ensures KeepsSelected(db, conds, filters)
  {
    forall n: Node, c | c in conds && Selects(db, c, n)
      ensures Dumped(db, filters, n)
    {
      assert c.0 in filters && filters[c.0] == c.1;
    }
  }

  /**
   What every collection of a dump is filtered by. Whichever way the configuration goes, the dump
   is referentially intact and holds every document a condition selects.
   */
  method ResolveDumpFilters(lang: Condition.Lang, db: Database, edges: seq<Edge>, conds: Conds, show: Value -> string,
                            debug: Document -> string, available: string -> bool)
    returns (r: Result<Filters, string>)
    requires OnePerCollection(conds) && Evaluable(lang, conds)
    requires UniqueIds(db) && WellFormed(db) && TellsIdsApart(db, show) && (forall c <- db :: ColonFree(c))
    requires PlainDiscriminators(edges)
    ensures !AllParse(conds) ==> r.Failure?
    ensures r.Failure? && AllParse(conds) ==> edges != [] && conds != []
    ensures r.Failure? && AllParse(conds) ==>
              exists c ::
                NeededCollection(edges, CompiledFilters(lang, conds), c) && (available(c) ==> Refused(edges, c))
    ensures r.Success? ==> Intact(db, edges, r.value) && KeepsSelected(db, CompiledFilters(lang, conds), r.value)
    ensures r.Success? && (edges == [] || conds == []) ==> FiltersByOwn(CompiledFilters(lang, conds), r.value)
    ensures r.Success? && edges != [] && conds != [] ==>
              forall c :: c in r.value <==> IsConditioned(CompiledFilters(lang, conds), c) || Mentioned(edges, c)
    ensures r.Success? && edges != [] && conds != [] ==>
              exists closure :: IsClosure(Whole(db), edges, CompiledFilters(lang, conds), closure) &&
                                SelectsClosure(db, edges, r.value, closure)
  {
    hide IsClosure, SelectsClosure, Intact, KeepsSelected, TellsIdsApart, Condition.ToFilter, NeededCollection;
    for i := 0 to |conds|
      invariant forall k | 0 <= k < i :: Condition.Parse(conds[k].1).Success?
    {
      if Condition.Parse(conds[i].1).Failure? {
        assert conds[i] in conds;
        return Failure("empty when expression");
      }
    }
    var filters := CompiledFilters(lang, conds);
    if edges == [] || conds == [] {
      var pushed := PushDown(filters);
      TriviallyIntact(db, edges, filters, pushed);
      PushDownKeepsSelected(db, filters, pushed);
      return Success(pushed);
    }
    ghost var closure;
    r, closure := SubsetFilters(db, edges, filters, show, debug, available);
    if r.Success? {
      ClosureKeepsSelected(db, edges, filters, r.value, closure);
    }
  }

  // From the configuration file to the filters of a dump.

  /** The collection a declared reference points at from one document: its first matching case, or its fixed target. */
  ghost predicate PointsTo(r: ReferenceDef, d: Document, collection: string) {
    if r.cases == [] then r.collection == Some(collection)
    else
      exists i | 0 <= i < |r.cases| ::
        r.cases[i].collection == collection && Get(d, r.cases[i].field) == Some(r.cases[i].value) &&
        forall j | 0 <= j < i :: Get(d, r.cases[j].field) != Some(r.cases[j].value)
  }

  /** A declaration by which a document refers to others of a collection, through this value. */
  ghost predicate Declares(entries: seq<Entry>, n: Node, r: ReferenceDef, v: Value, collection: string) {
    (exists entry <- entries :: entry.collection == n.collection && r in entry.references) &&
    PointsTo(r, n.doc, collection) && GetPath(n.doc, r.field) == Some(v)
  }

  /** Some declared reference of `n` finds `m`. */
  ghost predicate Finds(entries: seq<Entry>, n: Node, m: Node) {
    exists r, v :: Declares(entries, n, r, v, m.collection) && Mongo.Matches(m.doc, Single(r.referencesField, v))
  }

  ghost predicate In(db: Database, n: Node) {
    n.collection in db && n.doc in db[n.collection]
  }

  lemma PointsToResolves(e: Edge, r: ReferenceDef, d: Document, collection: string)
    requires if r.cases != [] then e.target == Polymorphic(r.cases)
             else r.collection.Some? && e.target == Fixed(r.collection.value)
    ensures PointsTo(r, d, collection) <==> e.ResolveTarget(d) == Some(collection)
  {
    Resolves(e, d);
    if r.cases != [] {
      FirstMatchIsCase(r.cases, d);
    }
  }

  /** The edges of the graph refer exactly as the declarations say. */
  lemma RefersAsDeclared(db: Database, entries: seq<Entry>, n: Node, m: Node)
    ensures Refers(db, AllEdges(entries), n, m) <==> In(db, n) && In(db, m) && Finds(entries, n, m)
  {
    hide Mongo.Matches, PointsTo;
    var edges := AllEdges(entries);
    if In(db, n) && In(db, m) && Refers(db, edges, n, m) {
      var e :| e in edges && RefersBy(e, n, m);
      EdgesAreDeclared(entries, e);
      var entry, r :| entry in entries && r in entry.references &&
        e.fromCollection == entry.collection && e.fromField == r.field && e.toField == r.referencesField &&
        e.notNull == r.notNull &&
        if r.cases != [] then e.target == Polymorphic(r.cases)
        else r.collection.Some? && e.target == Fixed(r.collection.value);
      PointsToResolves(e, r, n.doc, m.collection);
      assert Declares(entries, n, r, GetPath(n.doc, r.field).value, m.collection);
    }
    if In(db, n) && In(db, m) && Finds(entries, n, m) {
      var r, v :| Declares(entries, n, r, v, m.collection) && Mongo.Matches(m.doc, Single(r.referencesField, v));
      var entry :| entry in entries && entry.collection == n.collection && r in entry.references;
      DeclarationHasTarget(r, n.doc, m.collection);
      var e := Edge(entry.collection, r.field, r.referencesField, r.notNull,
                    if r.cases != [] then Polymorphic(r.cases) else Fixed(r.collection.value));
      EdgesAreDeclared(entries, e);
      PointsToResolves(e, r, n.doc, m.collection);
      assert RefersBy(e, n, m);
    }
  }

  lemma DeclarationHasTarget(r: ReferenceDef, d: Document, collection: string)
    requires PointsTo(r, d, collection)
    ensures r.cases == [] ==> r.collection.Some?
  {
  }

  /** A declaration that stands for an edge names the collection, as the referring or a referenced one. */
  ghost predicate Names(entries: seq<Entry>, c: string) {
    exists entry <- entries, r <- entry.references :: NamedBy(entry, r, c)
  }

  /** One declaration names the collection. */
  predicate NamedBy(entry: Entry, r: ReferenceDef, c: string) {
    (r.cases != [] || r.collection.Some?) &&
    (entry.collection == c ||
     if r.cases == [] then r.collection == Some(c) else exists k <- r.cases :: k.collection == c)
  }

  lemma NamedByEdge(entry: Entry, r: ReferenceDef, e: Edge, c: string)
    requires e.fromCollection == entry.collection
    requires if r.cases != [] then e.target == Polymorphic(r.cases)
             else r.collection.Some? && e.target == Fixed(r.collection.value)
    ensures NamedBy(entry, r, c) <==> e.fromCollection == c || c in e.TargetCollections()
  {
    TargetsMean(e, c);
  }

  lemma MentionedAsDeclared(entries: seq<Entry>, c: string)
    ensures Mentioned(AllEdges(entries), c) <==> Names(entries, c)
  {
    hide NamedBy, AllEdges;
    var edges := AllEdges(entries);
    if Mentioned(edges, c) {
      var e :| e in edges && (e.fromCollection == c || c in e.TargetCollections());
      EdgesAreDeclared(entries, e);
      var entry, r :| entry in entries && r in entry.references &&
        e.fromCollection == entry.collection && e.fromField == r.field && e.toField == r.referencesField &&
        e.notNull == r.notNull &&
        if r.cases != [] then e.target == Polymorphic(r.cases)
        else r.collection.Some? && e.target == Fixed(r.collection.value);
      NamedByEdge(entry, r, e, c);
    }
    if Names(entries, c) {
      var entry, r :| entry in entries && r in entry.references && NamedBy(entry, r, c);
      NamedHasTarget(entry, r, c);
      var e := Edge(entry.collection, r.field, r.referencesField, r.notNull,
                    if r.cases != [] then Polymorphic(r.cases) else Fixed(r.collection.value));
      EdgesAreDeclared(entries, e);
      NamedByEdge(entry, r, e, c);
    }
  }

  lemma NamedHasTarget(entry: Entry, r: ReferenceDef, c: string)
    requires NamedBy(entry, r, c)
    ensures r.cases == [] ==> r.collection.Some?
  {
  }

  /** Documents from a conditioned one on, each of which has a declared reference that finds the next. */
  ghost predicate DeclaredChain(db: Database, entries: seq<Entry>, conds: Conditions, path: seq<Node>) {
    path != [] && In(db, path[0]) &&
    (exists c <- conds :: c.0 == path[0].collection && Mongo.Matches(path[0].doc, c.1)) &&
    forall i | 0 < i < |path| :: In(db, path[i]) && Finds(entries, path[i - 1], path[i])
  }

  /** A dump holds nothing of a filtered collection that no chain of declared references leads to. */
  ghost predicate NothingBeyond(db: Database, entries: seq<Entry>, conds: Conditions, filters: Filters) {
    forall n: Node | Dumped(db, filters, n) && n.collection in filters ::
      exists path :: DeclaredChain(db, entries, conds, path) && path[|path| - 1] == n
  }

  lemma RequiresAsDeclared(db: Database, entries: seq<Entry>, n: Node, m: Node)
    ensures Requires(Whole(db), AllEdges(entries), n, m) <==> In(db, n) && In(db, m) && Finds(entries, n, m)
  {
    RefersAsDeclared(db, entries, n, m);
    hide Mongo.Matches, Finds, Lookup;
    var edges := AllEdges(entries);
    if Requires(Whole(db), edges, n, m) {
      var e :| e in edges && Follows(Whole(db), e, n, m);
      assert RefersBy(e, n, m);
    }
    if Refers(db, edges, n, m) {
      var e :| e in edges && RefersBy(e, n, m);
      assert Follows(Whole(db), e, n, m);
    }
  }

  lemma NothingBeyondClosure(db: Database, entries: seq<Entry>, conds: Conditions, filters: Filters, closure: set<Node>)
    requires IsClosure(Whole(db), AllEdges(entries), conds, closure)
    requires SelectsClosure(db, AllEdges(entries), filters, closure)
    ensures NothingBeyond(db, entries, conds, filters)
  {
    hide IsClosure, Requires, Finds, Mongo.Matches;
    forall n: Node | Dumped(db, filters, n) && n.collection in filters
      ensures exists path :: DeclaredChain(db, entries, conds, path) && path[|path| - 1] == n
    {
      var path := ClosureIsReached(Whole(db), AllEdges(entries), conds, closure, n);
      forall i | 0 < i < |path|
        ensures In(db, path[i]) && Finds(entries, path[i - 1], path[i])
      {
        assert Requires(Whole(db), AllEdges(entries), path[i - 1], path[i - 1 + 1]);
        RequiresAsDeclared(db, entries, path[i - 1], path[i]);
      }
      assert DeclaredChain(db, entries, conds, path);
    }
  }

  /** A name of a field as the server takes it, and a value it does not take for operators. */
  predicate PlainLookup(field: string, v: Value) {
    !Mongo.IsOperator(field) && !(v.Doc? && v.doc.Field? && Mongo.IsOperator(v.doc.key))
  }

  /** What a declared reference of a dumped document finds is dumped, and so is every document that holds its value. */
  ghost predicate DeclaredIntact(db: Database, entries: seq<Entry>, filters: Filters) {
    forall n: Node, m: Node, r, v |
      Dumped(db, filters, n) && In(db, m) && Declares(entries, n, r, v, m.collection) &&
      (Mongo.Matches(m.doc, Single(r.referencesField, v)) ||
       (PlainLookup(r.referencesField, v) && GetPath(m.doc, r.referencesField) == Some(v))) ::
      Dumped(db, filters, m)
  }

  lemma IntactAsDeclared(db: Database, entries: seq<Entry>, filters: Filters)
    requires Intact(db, AllEdges(entries), filters)
    ensures DeclaredIntact(db, entries, filters)
  {
    hide Mongo.Matches;
    forall n: Node, m: Node, r, v | Dumped(db, filters, n) && In(db, m) && Declares(entries, n, r, v, m.collection) &&
      (Mongo.Matches(m.doc, Single(r.referencesField, v)) ||
       (PlainLookup(r.referencesField, v) && GetPath(m.doc, r.referencesField) == Some(v)))
      ensures Dumped(db, filters, m)
    {
      if PlainLookup(r.referencesField, v) && GetPath(m.doc, r.referencesField) == Some(v) {
        var e := Edge("", "", r.referencesField, false, Fixed(""));
        LookupMeans(m.doc, e, v);
        SameAsItself(v);
      }
      assert Finds(entries, n, m);
      RefersAsDeclared(db, entries, n, m);
    }
  }

  lemma SameAsItself(v: Value)
    ensures Mongo.Equals(Some(v), v)
  {
  }

  /** Discriminators are plain keys. */
  predicate PlainCases(entries: seq<Entry>) {
    forall entry <- entries, r <- entry.references, k <- r.cases :: Paths.DotFree(k.field)
  }

  lemma DiscriminatorsArePlain(entries: seq<Entry>)
    requires PlainCases(entries)
    ensures PlainDiscriminators(AllEdges(entries))
  {
    forall e <- AllEdges(entries), f <- CaseFields(e)
      ensures Paths.DotFree(f)
    {
      EdgesAreDeclared(entries, e);
    }
  }

  /**
   From the declared references and the condition texts to the filters of a dump. Every document a
   condition selects is dumped; with a dumped document every document one of its declared
   references finds, by the declared fields; and, where references and conditions are declared,
   nothing of the collections they name but what such chains lead to.
   */
  method FiltersFromConfig(lang: Condition.Lang, db: Database, entries: seq<Entry>, conds: Conds, show: Value -> string,
                           debug: Document -> string, available: string -> bool)
    returns (r: Result<Filters, string>)
    requires OnePerCollection(conds) && Evaluable(lang, conds) && PlainCases(entries)
    requires UniqueIds(db) && WellFormed(db) && TellsIdsApart(db, show) && (forall c <- db :: ColonFree(c))
    ensures r.Failure? && AllParse(conds) ==>
              exists c :: NeededCollection(AllEdges(entries), CompiledFilters(lang, conds), c) &&
                          (available(c) ==> Refused(AllEdges(entries), c))
    ensures r.Success? ==> DeclaredIntact(db, entries, r.value)
    ensures r.Success? ==>
              forall n: Node, c | c in conds && c.0 == n.collection && In(db, n) ::
                Mongo.Matches(n.doc, Condition.ToFilter(lang, c.1)) ==> Dumped(db, r.value, n)
    ensures r.Success? && conds != [] && (exists c :: Names(entries, c)) ==>
              NothingBeyond(db, entries, CompiledFilters(lang, conds), r.value) &&
              forall c :: c in r.value <==> IsConditioned(CompiledFilters(lang, conds), c) || Names(entries, c)
  {
    hide IsClosure, SelectsClosure, Intact, TellsIdsApart, Condition.ToFilter, NeededCollection, FiltersByOwn;
    hide Refused, Mentioned, Names, NothingBeyond, DeclaredIntact, PlainCases, PlainDiscriminators;
    var edges := FromEntries(entries);
    DiscriminatorsArePlain(entries);
    r := ResolveDumpFilters(lang, db, edges, conds, show, debug, available);
    if r.Success? {
      var filters := CompiledFilters(lang, conds);
      IntactAsDeclared(db, entries, r.value);
      SelectedByText(lang, db, conds, r.value);
      forall c
        ensures Mentioned(edges, c) <==> Names(entries, c)
      {
        MentionedAsDeclared(entries, c);
      }
      if conds != [] && exists c :: Names(entries, c) {
        SomethingMentioned(edges);
        ghost var closure :|
          IsClosure(Whole(db), edges, filters, closure) && SelectsClosure(db, edges, r.value, closure);
        NothingBeyondClosure(db, entries, filters, r.value, closure);
      }
    }
  }

  lemma SomethingMentioned(edges: seq<Edge>)
    requires exists c :: Mentioned(edges, c)
    ensures edges != []
  {
  }

  lemma SelectedByText(lang: Condition.Lang, db: Database, conds: Conds, filters: Filters)
    requires Evaluable(lang, conds) && KeepsSelected(db, CompiledFilters(lang, conds), filters)
    ensures forall n: Node, c | c in conds && c.0 == n.collection && In(db, n) ::
              Mongo.Matches(n.doc, Condition.ToFilter(lang, c.1)) ==> Dumped(db, filters, n)
  {
    hide Mongo.Matches, Condition.ToFilter, Dumped;
    forall n: Node, c |
      c in conds && c.0 == n.collection && In(db, n) && Mongo.Matches(n.doc, Condition.ToFilter(lang, c.1))
      ensures Dumped(db, filters, n)
    {
      var i :| 0 <= i < |conds| && conds[i] == c;
      var cond := CompiledFilters(lang, conds)[i];
      assert cond in CompiledFilters(lang, conds) && Selects(db, cond, n);
    }
  }
}
