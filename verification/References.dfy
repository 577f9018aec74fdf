/** Declared references between collections: the edges that subsetting and propagation follow. */
module References {
  import opened Wrappers
  import opened Bson

  datatype Case = Case(field: string, value: Value, collection: string)

  datatype ReferenceDef = ReferenceDef(
    field: string,
    collection: Option<string>,
    referencesField: string,
    notNull: bool,
    cases: seq<Case>)

  datatype Entry = Entry(collection: string, references: seq<ReferenceDef>)

  datatype Target = Fixed(collection: string) | Polymorphic(cases: seq<Case>)

  datatype Edge = Edge(fromCollection: string, fromField: string, toField: string, notNull: bool, target: Target) {
    /** The collection this edge points at for one holding document; none when no case matches. */
    function ResolveTarget(d: Document): Option<string> {
      match target
      case Fixed(c) => Some(c)
      case Polymorphic(cases) => FirstMatch(cases, d)
    }

    function TargetCollections(): seq<string> {
      match target
      case Fixed(c) => [c]
      case Polymorphic(cases) => seq(|cases|, i requires 0 <= i < |cases| => cases[i].collection)
    }
  }

  function FirstMatch(cases: seq<Case>, d: Document): Option<string> {
    if cases == [] then None
    else if Get(d, cases[0].field) == Some(cases[0].value) then Some(cases[0].collection)
    else FirstMatch(cases[1..], d)
  }

  lemma {:induction false} FirstMatchIsCase(cases: seq<Case>, d: Document)
    ensures match FirstMatch(cases, d)
            case None => forall k <- cases :: Get(d, k.field) != Some(k.value)
            case Some(c) => exists i | 0 <= i < |cases| ::
              cases[i].collection == c && Get(d, cases[i].field) == Some(cases[i].value) &&
              forall j | 0 <= j < i :: Get(d, cases[j].field) != Some(cases[j].value)
  {
    if cases != [] {
      var rest := cases[1..];
      FirstMatchIsCase(rest, d);
      if Get(d, cases[0].field) == Some(cases[0].value) {
      } else if FirstMatch(rest, d).Some? {
        var i :| 0 <= i < |rest| && rest[i].collection == FirstMatch(rest, d).value &&
          Get(d, rest[i].field) == Some(rest[i].value) &&
          forall j | 0 <= j < i :: Get(d, rest[j].field) != Some(rest[j].value);
        assert cases[i + 1] == rest[i];
        assert forall j | 0 < j <= i :: cases[j] == rest[j - 1];
      } else {
        assert forall k <- cases :: k == cases[0] || k in rest;
      }
    }
  }

  /** What a document resolves to is among the collections the edge can point at. */
  lemma ResolvedIsTarget(e: Edge, d: Document)
    requires e.ResolveTarget(d).Some?
    ensures e.ResolveTarget(d).value in e.TargetCollections()
  {
    match e.target {
      case Fixed(c) =>
      case Polymorphic(cases) =>
        FirstMatchIsCase(cases, d);
        var i :| 0 <= i < |cases| && cases[i].collection == e.ResolveTarget(d).value;
        assert e.TargetCollections()[i] == cases[i].collection;
    }
  }

  /** A fixed reference resolves for every document, to its collection; a polymorphic one to its first matching case. */
  lemma Resolves(e: Edge, d: Document)
    ensures e.target.Fixed? ==> e.ResolveTarget(d) == Some(e.target.collection)
    ensures e.target.Polymorphic? ==>
              var cases := e.target.cases;
              (e.ResolveTarget(d) == None <==> forall k <- cases :: Get(d, k.field) != Some(k.value)) &&
              forall i | 0 <= i < |cases| && Get(d, cases[i].field) == Some(cases[i].value) &&
                         forall j | 0 <= j < i :: Get(d, cases[j].field) != Some(cases[j].value) ::
                e.ResolveTarget(d) == Some(cases[i].collection)
  {
    if e.target.Polymorphic? {
      FirstMatchIsCase(e.target.cases, d);
    }
  }

  /** The collections an edge can point at are its fixed target, or those of its cases, and no others. */
  lemma TargetsMean(e: Edge, c: string)
    ensures c in e.TargetCollections() <==>
            match e.target
            case Fixed(t) => c == t
            case Polymorphic(cases) => exists k <- cases :: k.collection == c
  {
    if e.target.Polymorphic? {
      var cases := e.target.cases;
      if k :| k in cases && k.collection == c {
        var i :| 0 <= i < |cases| && cases[i] == k;
        assert e.TargetCollections()[i] == c;
      }
    }
  }

  /** Resolution looks at nothing but the discriminator fields. */
  lemma {:induction false} FirstMatchReads(cases: seq<Case>, d: Document, d': Document)
    requires forall k <- cases :: Get(d, k.field) == Get(d', k.field)
    ensures FirstMatch(cases, d) == FirstMatch(cases, d')
  {
    if cases != [] {
      assert cases[0] in cases && forall k <- cases[1..] :: k in cases;
      FirstMatchReads(cases[1..], d, d');
    }
  }

  /** A definition with polymorphic cases ignores its fixed target; one with neither is inert. */
  function EdgeOf(collection: string, r: ReferenceDef): Option<Edge> {
    if r.cases != [] then Some(Edge(collection, r.field, r.referencesField, r.notNull, Polymorphic(r.cases)))
    else match r.collection
      case Some(c) => Some(Edge(collection, r.field, r.referencesField, r.notNull, Fixed(c)))
      case None => None
  }

  /** A reference of the entry stands for the edge, field by field: cases win over a fixed target, and one is needed. */
  ghost predicate DeclaredBy(entry: Entry, e: Edge) {
    exists r <- entry.references ::
      e.fromCollection == entry.collection && e.fromField == r.field && e.toField == r.referencesField &&
      e.notNull == r.notNull &&
      if r.cases != [] then e.target == Polymorphic(r.cases)
      else r.collection.Some? && e.target == Fixed(r.collection.value)
  }

  ghost predicate Declared(entries: seq<Entry>, e: Edge) {
    exists entry <- entries :: DeclaredBy(entry, e)
  }

  /** The edges of one entry's references, in order. */
  function EdgesOf(collection: string, references: seq<ReferenceDef>): seq<Edge> {
    if references == [] then []
    else
      var last := |references| - 1;
      EdgesOf(collection, references[..last]) +
      match EdgeOf(collection, references[last]) case Some(e) => [e] case None => []
  }

  function AllEdges(entries: seq<Entry>): seq<Edge> {
    if entries == [] then []
    else
      var last := |entries| - 1;
      AllEdges(entries[..last]) + EdgesOf(entries[last].collection, entries[last].references)
  }

  method FromEntries(entries: seq<Entry>) returns (edges: seq<Edge>)
    ensures edges == AllEdges(entries)
    ensures forall e :: e in edges <==> Declared(entries, e)
  {
    hide Declared;
    edges := [];
    for i := 0 to |entries|
      invariant edges == AllEdges(entries[..i])
    {
      var entry := entries[i];
      ghost var before := edges;
      for j := 0 to |entry.references|
        invariant edges == before + EdgesOf(entry.collection, entry.references[..j])
      {
        var r := entry.references[j];
        assert entry.references[..j + 1][..j] == entry.references[..j];
        var target: Target;
        if r.cases != [] {
          target := Polymorphic(r.cases);
        } else if r.collection.Some? {
          target := Fixed(r.collection.value);
        } else {
          continue;
        }
        edges := edges + [Edge(entry.collection, r.field, r.referencesField, r.notNull, target)];
      }
      assert entry.references[..|entry.references|] == entry.references;
      assert entries[..i + 1][..i] == entries[..i];
    }
    assert entries[..|entries|] == entries;
    AllAreDeclared(entries);
  }

  lemma AllAreDeclared(entries: seq<Entry>)
    ensures forall e :: e in AllEdges(entries) <==> Declared(entries, e)
  {
    hide Declared;
    forall e
      ensures e in AllEdges(entries) <==> Declared(entries, e)
    {
      EdgesAreDeclared(entries, e);
    }
  }

  lemma {:induction false} EdgesOfExactly(collection: string, references: seq<ReferenceDef>, e: Edge)
    ensures e in EdgesOf(collection, references) <==>
            exists r <- references :: EdgeOf(collection, r) == Some(e)
    decreases |references|
  {
    hide EdgeOf;
    if references != [] {
      var last := |references| - 1;
      EdgesOfExactly(collection, references[..last], e);
      assert references == references[..last] + [references[last]];
    }
  }

  lemma EntryDeclares(entry: Entry, e: Edge)
    ensures e in EdgesOf(entry.collection, entry.references) <==> DeclaredBy(entry, e)
  {
    EdgesOfExactly(entry.collection, entry.references, e);
  }

  /** The graph holds exactly the declared references, each with its own fields. */
  lemma {:induction false} EdgesAreDeclared(entries: seq<Entry>, e: Edge)
    ensures e in AllEdges(entries) <==> Declared(entries, e)
    decreases |entries|
  {
    hide EdgesOf, DeclaredBy;
    if entries != [] {
      var last := |entries| - 1;
      EdgesAreDeclared(entries[..last], e);
      EntryDeclares(entries[last], e);
      assert entries == entries[..last] + [entries[last]];
    }
  }

  lemma {:induction false} EdgesOfConcat(collection: string, a: seq<ReferenceDef>, b: seq<ReferenceDef>)
    ensures EdgesOf(collection, a + b) == EdgesOf(collection, a) + EdgesOf(collection, b)
    decreases |b|
  {
    if b == [] {
      assert a + b == a;
    } else {
      var last := |b| - 1;
      assert (a + b)[..|a + b| - 1] == a + b[..last];
      EdgesOfConcat(collection, a, b[..last]);
    }
  }

  /** Edges stand in the order of the entries, and within an entry in the order of its references. */
  lemma {:induction false} EdgesInOrder(a: seq<Entry>, b: seq<Entry>)
    ensures AllEdges(a + b) == AllEdges(a) + AllEdges(b)
    ensures forall c: string, r: seq<ReferenceDef>, s: seq<ReferenceDef> ::
              AllEdges([Entry(c, r + s)]) == AllEdges([Entry(c, r)]) + AllEdges([Entry(c, s)])
    decreases |b|
  {
    forall c: string, r: seq<ReferenceDef>, s: seq<ReferenceDef>
      ensures AllEdges([Entry(c, r + s)]) == AllEdges([Entry(c, r)]) + AllEdges([Entry(c, s)])
    {
      EdgesOfConcat(c, r, s);
      OneEntry(c, r);
      OneEntry(c, s);
      OneEntry(c, r + s);
    }
    if b == [] {
      assert a + b == a;
    } else {
      var last := |b| - 1;
      assert (a + b)[..|a + b| - 1] == a + b[..last];
      EdgesInOrder(a, b[..last]);
    }
  }

  lemma OneEntry(c: string, r: seq<ReferenceDef>)
    ensures AllEdges([Entry(c, r)]) == EdgesOf(c, r)
  {
    assert [Entry(c, r)][..0] == [];
    assert AllEdges([]) == [];
  }

  function ReferencesFrom(edges: seq<Edge>, collection: string): (r: seq<Edge>)
    ensures forall e :: e in r <==> e in edges && e.fromCollection == collection
  {
    if edges == [] then []
    else (if edges[0].fromCollection == collection then [edges[0]] else []) + ReferencesFrom(edges[1..], collection)
  }
}
