/**
 Dumping one collection: its documents are read through the filter, left out or transformed one
 by one, and written to the blob. This is where subsetting, transformation, the blob and the
 restore meet: the last results follow a reference, and a whole collection, through all of them.
 */
module CollectionDump {
  import opened Wrappers
  import opened Bson
  import opened ByteStrings
  import opened Blob
  import opened References
  import opened Transform
  import Paths
  import Mongo
  import Subset
  import Projection
  import DumpPlan
  import Inheritance
  import BatchInsert
  import ErrorExclusions
  import RestoreItem
  import RestoreRun

  /** The equality-only query of a transformation entry. */
  predicate MatchesQuery(d: Document, query: Document) {
    match query
    case End => true
    case Field(key, v, rest) => GetPath(d, key) == Some(v) && MatchesQuery(d, rest)
  }

  /** The query asks each of its fields to hold its value, and nothing else. */
  lemma {:induction false} QueryMeans(d: Document, key: string, v: Value, query: Document)
    ensures MatchesQuery(d, Document.End)
    ensures MatchesQuery(d, Single(key, v)) <==> GetPath(d, key) == Some(v)
    ensures MatchesQuery(d, Field(key, v, query)) <==> MatchesQuery(d, Single(key, v)) && MatchesQuery(d, query)
  {
    assert MatchesQuery(d, Single(key, v)) == (GetPath(d, key) == Some(v) && MatchesQuery(d, Document.End));
  }

  predicate ShouldInclude(plan: Plan, collection: string, d: Document) {
    collection in plan && plan[collection].query.Some? ==> MatchesQuery(d, plan[collection].query.value)
  }

  /** What one document contributes to the blob. */
  function Emit(plan: Option<Plan>, collection: string, d: Document): Result<Option<Document>, string> {
    match plan
    case None => Success(Some(d))
    case Some(p) =>
      if !ShouldInclude(p, collection, d) then Success(None)
      else
        match TransformOutcome(p, collection, d)
        case Failure(e) => Failure(e)
        case Success(out) => Success(Some(out))
  }

  function Emitted(plan: Option<Plan>, collection: string, docs: seq<Document>): Result<seq<Document>, string> {
    if docs == [] then Success([])
    else
      var last := |docs| - 1;
      match Emitted(plan, collection, docs[..last])
      case Failure(e) => Failure(e)
      case Success(before) =>
        match Emit(plan, collection, docs[last])
        case Failure(e) => Failure(e)
        case Success(None) => Success(before)
        case Success(Some(out)) => Success(before + [out])
  }

  /** What the source streams: the documents its collection's filter matches, in order. */
  function Streamed(filters: DumpPlan.Filters, collection: string, docs: seq<Document>): (r: seq<Document>)
    ensures forall d :: d in r <==> d in docs && (collection in filters ==> Mongo.Matches(d, filters[collection]))
  {
    if docs == [] then []
    else
      (if collection in filters ==> Mongo.Matches(docs[0], filters[collection]) then [docs[0]] else []) +
      Streamed(filters, collection, docs[1..])
  }

  lemma {:induction false} EmitFailsEarly(plan: Option<Plan>, collection: string, docs: seq<Document>, n: nat)
    requires n <= |docs| && Emitted(plan, collection, docs[..n]).Failure?
    ensures Emitted(plan, collection, docs) == Emitted(plan, collection, docs[..n])
    decreases |docs| - n
  {
    hide Emit;
    if n == |docs| {
      assert docs[..n] == docs;
    } else {
      assert docs[..n + 1][..n] == docs[..n];
      EmitFailsEarly(plan, collection, docs, n + 1);
    }
  }

  lemma NothingEmitted(plan: Option<Plan>, collection: string)
    ensures Emitted(plan, collection, []) == Success([])
  {
  }

  /** How one more document moves the dump of a collection along. */
  lemma EmittedStep(plan: Option<Plan>, collection: string, docs: seq<Document>, i: nat)
    requires i < |docs| && Emitted(plan, collection, docs[..i]).Success?
    ensures var before := Emitted(plan, collection, docs[..i]).value;
            match Emit(plan, collection, docs[i])
            case Failure(e) => Emitted(plan, collection, docs) == Failure(e)
            case Success(None) => Emitted(plan, collection, docs[..i + 1]) == Success(before)
            case Success(Some(x)) => Emitted(plan, collection, docs[..i + 1]) == Success(before + [x])
  {
    hide Emit;
    assert docs[..i + 1][..i] == docs[..i];
    if Emit(plan, collection, docs[i]).Failure? {
      EmitFailsEarly(plan, collection, docs, i + 1);
    }
  }

  /** How many documents are written, and the blob of their frames. */
  function BlobOf(codec: Codec<Document>, docs: Result<seq<Document>, string>): Result<(nat, Bytes), string> {
    if docs.Success? then Success((|docs.value|, Frames(codec, docs.value))) else Failure(docs.error)
  }

  /** The count and the blob of a collection; a document that cannot be transformed fails the dump of it. */
  method DumpCollection(codec: Codec<Document>, plan: Option<Plan>, filters: DumpPlan.Filters, collection: string,
                        docs: seq<Document>)
    returns (r: Result<(nat, Bytes), string>)
    ensures r == BlobOf(codec, Emitted(plan, collection, Streamed(filters, collection, docs)))
  {
    hide TransformOutcome, ShouldInclude, Emitted, Streamed, CollectionDataWriter.Valid;
    var writer := new CollectionDataWriter(codec);
    var stream := Streamed(filters, collection, docs);
    NothingEmitted(plan, collection);
    for i := 0 to |stream|
      invariant fresh(writer) && writer.Valid() && writer.codec == codec
      invariant Emitted(plan, collection, stream[..i]) == Success(writer.docs)
    {
      var doc := stream[i];
      EmittedStep(plan, collection, stream, i);
      var out := doc;
      if plan.Some? {
        if !ShouldInclude(plan.value, collection, doc) {
          continue;
        }
        var transformed := TransformDocument(plan.value, collection, doc);
        match transformed {
          case Failure(e) => return Failure(e);
          case Success(o) => out := o;
        }
      }
      writer.WriteDocument(out);
    }
    assert stream[..|stream|] == stream;
    writer.ValidMeans();
    r := Success((writer.count, writer.sink));
  }

  /** A blob holds exactly what its documents contribute. */
  lemma {:induction false} EmittedExactly(plan: Option<Plan>, collection: string, docs: seq<Document>, x: Document)
    requires Emitted(plan, collection, docs).Success?
    ensures x in Emitted(plan, collection, docs).value <==>
              exists d <- docs :: Emit(plan, collection, d) == Success(Some(x))
    decreases |docs|
  {
    hide Emit;
    if docs != [] {
      var last := |docs| - 1;
      EmittedExactly(plan, collection, docs[..last], x);
      assert docs == docs[..last] + [docs[last]];
    }
  }

  /**
   The blob in terms of the plan: it holds exactly what transforming makes of the documents that the
   query of their collection's entry, if it has one, matches; without a plan, the documents themselves.
   */
  lemma BlobHolds(plan: Option<Plan>, collection: string, docs: seq<Document>, x: Document)
    requires Emitted(plan, collection, docs).Success?
    ensures plan == None ==> (x in Emitted(plan, collection, docs).value <==> x in docs)
    ensures plan.Some? ==>
              (x in Emitted(plan, collection, docs).value <==>
               exists d <- docs ::
                 (collection in plan.value && plan.value[collection].query.Some? ==>
                    MatchesQuery(d, plan.value[collection].query.value)) &&
                 TransformOutcome(plan.value, collection, d) == Success(x))
  {
    hide TransformOutcome, MatchesQuery;
    EmittedExactly(plan, collection, docs, x);
  }

  /** Documents are written in the order they are read, each once. */
  lemma {:induction false} EmittedInOrder(plan: Option<Plan>, collection: string, a: seq<Document>, b: seq<Document>)
    ensures Emitted(plan, collection, a + b) ==
            var before, after := Emitted(plan, collection, a), Emitted(plan, collection, b);
            if before.Failure? then before else if after.Failure? then after else Success(before.value + after.value)
    ensures forall d :: Emitted(plan, collection, [d]) ==
                        var one := Emit(plan, collection, d);
                        if one.Failure? then Failure(one.error)
                        else Success(if one.value.Some? then [one.value.value] else [])
    decreases |b|
  {
    hide Emit;
    forall d
      ensures Emitted(plan, collection, [d]) ==
              var one := Emit(plan, collection, d);
              if one.Failure? then Failure(one.error) else Success(if one.value.Some? then [one.value.value] else [])
    {
      OneEmitted(plan, collection, d);
    }
    if b == [] {
      assert a + b == a;
      NothingEmitted(plan, collection);
      if Emitted(plan, collection, a).Success? {
        assert Emitted(plan, collection, a).value + [] == Emitted(plan, collection, a).value;
      }
    } else {
      var last := |b| - 1;
      assert (a + b)[..|a + b| - 1] == a + b[..last];
      EmittedInOrder(plan, collection, a, b[..last]);
      MoreEmitted(plan, collection, a, b);
    }
  }

  lemma OneEmitted(plan: Option<Plan>, collection: string, d: Document)
    ensures Emitted(plan, collection, [d]) ==
            var one := Emit(plan, collection, d);
            if one.Failure? then Failure(one.error) else Success(if one.value.Some? then [one.value.value] else [])
  {
    hide Emit;
    var one := Emit(plan, collection, d);
    assert [d][..0] == [];
    NothingEmitted(plan, collection);
    if one.Success? && one.value.Some? {
      assert [] + [one.value.value] == [one.value.value];
    }
  }

  /** One more document behind a second portion, when the portions before it are known. */
  lemma MoreEmitted(plan: Option<Plan>, collection: string, a: seq<Document>, b: seq<Document>)
    requires b != []
    requires Emitted(plan, collection, a + b[..|b| - 1]) ==
             var before, after := Emitted(plan, collection, a), Emitted(plan, collection, b[..|b| - 1]);
             if before.Failure? then before else if after.Failure? then after else Success(before.value + after.value)
    ensures Emitted(plan, collection, a + b) ==
            var before, after := Emitted(plan, collection, a), Emitted(plan, collection, b);
            if before.Failure? then before else if after.Failure? then after else Success(before.value + after.value)
  {
    hide Emit;
    var last := |b| - 1;
    assert (a + b)[..|a + b| - 1] == a + b[..last] && (a + b)[|a + b| - 1] == b[last];
    var before, after := Emitted(plan, collection, a), Emitted(plan, collection, b[..last]);
    if before.Success? && after.Success? {
      var one := Emit(plan, collection, b[last]);
      if one.Success? && one.value.Some? {
        assert (before.value + after.value) + [one.value.value] == before.value + (after.value + [one.value.value]);
      }
    }
  }

  /** The source streams in order too. */
  lemma {:induction false} StreamedInOrder(filters: DumpPlan.Filters, collection: string, a: seq<Document>,
                                           b: seq<Document>, d: Document)
    ensures Streamed(filters, collection, a + b) == Streamed(filters, collection, a) + Streamed(filters, collection, b)
    ensures Streamed(filters, collection, [d]) ==
            if collection in filters ==> Mongo.Matches(d, filters[collection]) then [d] else []
  {
    assert [d][1..] == [] && Streamed(filters, collection, []) == [] && [d] + [] == [d];
    if a == [] {
      assert a + b == b;
    } else {
      assert (a + b)[1..] == a[1..] + b;
      StreamedInOrder(filters, collection, a[1..], b, d);
    }
  }

  lemma {:induction false} EachEmits(plan: Option<Plan>, collection: string, docs: seq<Document>, d: Document)
    requires Emitted(plan, collection, docs).Success? && d in docs
    ensures Emit(plan, collection, d).Success?
    decreases |docs|
  {
    hide Emit;
    var last := |docs| - 1;
    if d != docs[last] {
      assert d in docs[..last];
      EachEmits(plan, collection, docs[..last], d);
    }
  }

  // Identity.

  /** The id of what a document contributes; none when it contributes nothing, or something without an id. */
  function EmittedId(plan: Option<Plan>, collection: string, d: Document): Option<Value>
    requires Emit(plan, collection, d).Success?
  {
    match Emit(plan, collection, d).value
    case None => None
    case Some(x) => Get(x, "_id")
  }

  /** No two documents contribute the same id. */
  ghost predicate EmitsApart(plan: Option<Plan>, collection: string, docs: seq<Document>)
    requires forall d <- docs :: Emit(plan, collection, d).Success?
  {
    forall i, j | 0 <= i < j < |docs| ::
      EmittedId(plan, collection, docs[i]).Some? ==>
      EmittedId(plan, collection, docs[i]) != EmittedId(plan, collection, docs[j])
  }

  lemma AllEmit(plan: Option<Plan>, collection: string, docs: seq<Document>)
    requires Emitted(plan, collection, docs).Success?
    ensures forall d <- docs :: Emit(plan, collection, d).Success?
  {
    hide Emit, Emitted;
    forall d <- docs
      ensures Emit(plan, collection, d).Success?
    {
      EachEmits(plan, collection, docs, d);
    }
  }

  lemma IdIsEmitted(plan: Option<Plan>, collection: string, docs: seq<Document>, id: Value)
    requires Emitted(plan, collection, docs).Success? && forall d <- docs :: Emit(plan, collection, d).Success?
    ensures (exists x <- Emitted(plan, collection, docs).value :: Get(x, "_id") == Some(id)) <==>
            exists d <- docs :: EmittedId(plan, collection, d) == Some(id)
  {
    hide Emit, Emitted;
    var out := Emitted(plan, collection, docs).value;
    forall x
      ensures x in out <==> exists d <- docs :: Emit(plan, collection, d) == Success(Some(x))
    {
      EmittedExactly(plan, collection, docs, x);
    }
    if d :| d in docs && EmittedId(plan, collection, d) == Some(id) {
      assert Emit(plan, collection, d).value.value in out;
    }
  }

  lemma ApartAppend(docs: seq<Document>, x: Document)
    ensures BatchInsert.IdsApart(docs + [x]) <==>
              BatchInsert.IdsApart(docs) && forall d <- docs :: Get(d, "_id").Some? ==> Get(d, "_id") != Get(x, "_id")
  {
    var all := docs + [x];
    assert all[|docs|] == x && forall i | 0 <= i < |docs| :: all[i] == docs[i] && docs[i] in docs;
  }

  /** The ids in a blob are apart exactly when no two of the documents dumped contribute the same one. */
  lemma {:induction false} ApartIffEmitsApart(plan: Option<Plan>, collection: string, docs: seq<Document>)
    requires Emitted(plan, collection, docs).Success? && forall d <- docs :: Emit(plan, collection, d).Success?
    ensures BatchInsert.IdsApart(Emitted(plan, collection, docs).value) <==> EmitsApart(plan, collection, docs)
    decreases |docs|
  {
    hide Emit, BatchInsert.IdsApart;
    if docs == [] {
      NothingApart();
    } else {
      var last := |docs| - 1;
      var before, d := docs[..last], docs[last];
      assert docs == before + [d] && d in docs && forall x <- before :: x in docs;
      ApartIffEmitsApart(plan, collection, before);
      EmitsApartAppend(plan, collection, before, d);
      var out := Emitted(plan, collection, before).value;
      var emitted := Emit(plan, collection, d).value;
      if emitted.Some? {
        ApartAppend(out, emitted.value);
        if EmittedId(plan, collection, d).Some? {
          IdIsEmitted(plan, collection, before, EmittedId(plan, collection, d).value);
        }
      }
    }
  }

  lemma NothingApart()
    ensures BatchInsert.IdsApart([])
  {
  }

  lemma EmitsApartAppend(plan: Option<Plan>, collection: string, docs: seq<Document>, d: Document)
    requires forall x <- docs + [d] :: Emit(plan, collection, x).Success?
    ensures (forall x <- docs :: Emit(plan, collection, x).Success?) && Emit(plan, collection, d).Success?
    ensures EmitsApart(plan, collection, docs + [d]) <==>
              EmitsApart(plan, collection, docs) &&
              forall x <- docs :: EmittedId(plan, collection, x).Some? ==>
                EmittedId(plan, collection, x) != EmittedId(plan, collection, d)
  {
    hide Emit, EmittedId;
    var all := docs + [d];
    assert all[|docs|] == d && d in all && forall x <- docs :: x in all;
    assert forall i | 0 <= i < |docs| :: all[i] == docs[i] && docs[i] in docs;
  }

  /** No rule writes `_id` or anything in it. */
  predicate LeavesIds(p: CollectionPlan) {
    forall i | 0 <= i < |p.rules| :: UnrelatedFields(p.rules[i].field, "_id")
  }

  /** Different values stay different, whatever documents they stand in. */
  ghost predicate Injective(t: Transformer) {
    forall v: Value, w: Value, d: Document, e: Document |
      v != w && t(v, d).Success? && t(w, e).Success? :: t(v, d) != t(w, e)
  }

  /** The k-th rule replaces every `_id`, different ones by different ones, and no later rule touches it. */
  ghost predicate ReplacesIds(p: CollectionPlan, k: nat) {
    k < |p.rules| && p.rules[k].field == "_id" && p.rules[k].cast == None && Injective(p.rules[k].exec) &&
    (forall j | k < j < |p.rules| :: UnrelatedFields(p.rules[j].field, "_id")) &&
    (forall d: Document :: p.gate(d) && p.rules[k].gate(d))
  }

  /** What the k-th rule makes of the document's id. */
  function ReplacedId(p: CollectionPlan, k: nat, d: Document): Result<Value, string>
    requires k < |p.rules| && Get(d, "_id").Some?
  {
    p.rules[k].exec(Get(d, "_id").value, d)
  }

  ghost predicate KeepsIdsApart(plan: Option<Plan>, collection: string) {
    plan.Some? && collection in plan.value ==>
      LeavesIds(plan.value[collection]) || exists k :: ReplacesIds(plan.value[collection], k)
  }

  lemma EmitKeepsId(plan: Option<Plan>, collection: string, d: Document)
    requires plan.Some? && collection in plan.value ==> LeavesIds(plan.value[collection])
    requires Emit(plan, collection, d).Success? && Emit(plan, collection, d).value.Some?
    ensures EmittedId(plan, collection, d) == Get(d, "_id")
  {
    hide ApplyRules, UnrelatedFields, Get, GetPath;
    if plan.Some? && collection in plan.value && plan.value[collection].gate(d) {
      UntouchedPath(plan.value[collection].rules, d, "_id");
    }
    PlainKey(d, "_id");
    PlainKey(Emit(plan, collection, d).value.value, "_id");
  }

  lemma EmitReplacesId(plan: Plan, collection: string, k: nat, d: Document)
    requires collection in plan && ReplacesIds(plan[collection], k) && Get(d, "_id").Some?
    requires Emit(Some(plan), collection, d).Success? && Emit(Some(plan), collection, d).value.Some?
    ensures ReplacedId(plan[collection], k, d).Success?
    ensures EmittedId(Some(plan), collection, d) == Some(ReplacedId(plan[collection], k, d).value)
  {
    hide ApplyRules, Injective, Get, GetPath, UnrelatedFields;
    var rules := plan[collection].rules;
    RuleResultStands(rules, d, k);
    PlainKey(d, "_id");
    PlainKey(Emit(Some(plan), collection, d).value.value, "_id");
  }

  /** A plan that leaves `_id` alone, or replaces it by an injective rule, keeps the dumped ids apart. */
  lemma EmittedIdsStayApart(plan: Option<Plan>, collection: string, docs: seq<Document>)
    requires Emitted(plan, collection, docs).Success? && KeepsIdsApart(plan, collection)
    requires BatchInsert.IdsApart(docs) && forall d <- docs :: Get(d, "_id").Some?
    ensures BatchInsert.IdsApart(Emitted(plan, collection, docs).value)
  {
    hide Emit, Emitted, LeavesIds, ReplacesIds, EmittedId;
    AllEmit(plan, collection, docs);
    ApartIffEmitsApart(plan, collection, docs);
    forall i, j | 0 <= i < j < |docs| && EmittedId(plan, collection, docs[i]).Some?
      ensures EmittedId(plan, collection, docs[i]) != EmittedId(plan, collection, docs[j])
    {
      assert docs[i] in docs && docs[j] in docs;
      ContributedIdsDiffer(plan, collection, docs[i], docs[j]);
    }
  }

  lemma ContributedIdsDiffer(plan: Option<Plan>, collection: string, d: Document, e: Document)
    requires KeepsIdsApart(plan, collection)
    requires Emit(plan, collection, d).Success? && Emit(plan, collection, e).Success?
    requires Get(d, "_id").Some? && Get(e, "_id").Some? && Get(d, "_id") != Get(e, "_id")
    requires EmittedId(plan, collection, d).Some?
    ensures EmittedId(plan, collection, d) != EmittedId(plan, collection, e)
  {
    hide LeavesIds, ReplacesIds, Emit;
    if Emit(plan, collection, e).value.Some? {
      if plan.Some? && collection in plan.value && !LeavesIds(plan.value[collection]) {
        var k :| ReplacesIds(plan.value[collection], k);
        EmitReplacesId(plan.value, collection, k, d);
        EmitReplacesId(plan.value, collection, k, e);
        RuleIsInjective(plan.value[collection], k, d, e);
      } else {
        EmitKeepsId(plan, collection, d);
        EmitKeepsId(plan, collection, e);
      }
    }
  }

  lemma RuleIsInjective(p: CollectionPlan, k: nat, d: Document, e: Document)
    requires ReplacesIds(p, k) && Get(d, "_id").Some? && Get(e, "_id").Some? && Get(d, "_id") != Get(e, "_id")
    requires ReplacedId(p, k, d).Success? && ReplacedId(p, k, e).Success?
    ensures ReplacedId(p, k, d).value != ReplacedId(p, k, e).value
  {
    hide UnrelatedFields, Get;
  }

  // A whole dump, restored.

  /** The collections of a database with their documents. */
  type DatabaseContents = seq<(string, seq<Document>)>

  /** Every blob and count is what dumping its collection yields; the codec frames what was written. */
  ghost predicate DumpOf(codec: Codec<Document>, plan: Option<Plan>, filters: DumpPlan.Filters, db: DatabaseContents,
                         sources: seq<RestoreItem.ItemSource>, out: seq<seq<Document>>)
  {
    |db| == |sources| == |out| && forall i | 0 <= i < |db| ::
      Emitted(plan, db[i].0, Streamed(filters, db[i].0, db[i].1)) == Success(out[i]) && AllFramed(codec, out[i]) &&
      sources[i].blob == Success(Frames(codec, out[i])) && sources[i].recorded == Success(|out[i]|)
  }

  lemma {:induction false} StreamedIdsApart(filters: DumpPlan.Filters, collection: string, docs: seq<Document>)
    requires BatchInsert.IdsApart(docs)
    ensures BatchInsert.IdsApart(Streamed(filters, collection, docs))
  {
    if docs != [] {
      var rest := docs[1..];
      StreamedIdsApart(filters, collection, rest);
      var kept := Streamed(filters, collection, rest);
      forall j | 0 <= j < |kept|
        ensures Get(docs[0], "_id").Some? ==> Get(docs[0], "_id") != Get(kept[j], "_id")
      {
        assert kept[j] in kept && kept[j] in rest;
      }
    }
  }

  /**
   Restoring a dump with `clean` leaves in every collection exactly the selected documents,
   transformed, in order, if and only if the written ids are apart in each. The report is clean
   if and only if duplicates are also tolerated wherever two written ids collide.
   */
  lemma RestoredAsDumped(s: RestoreRun.Setup<Document>, plan: Option<Plan>, filters: DumpPlan.Filters,
                         db: DatabaseContents, out: seq<seq<Document>>)
    requires s.Valid() && s.rule == BatchInsert.DuplicateId && s.options.clean && RestoreRun.TargetAnswers(s)
    requires DumpOf(s.codec, plan, filters, db, s.sources, out)
    ensures RestoreRun.SequentialTarget(s) == out <==> RestoreRun.AllApart(out)
    ensures RestoreRun.CleanReport(RestoreRun.Gathered(RestoreRun.SequentialResults(s))) <==>
              forall i | 0 <= i < |out| :: BatchInsert.IdsApart(out[i]) || s.Tolerance(i)(ErrorExclusions.DUPLICATE_ID)
  {
    hide Emitted, Streamed, Frames, AllFramed, RestoreRun.Gathered, RestoreRun.TargetAnswers, ErrorExclusions.For;
    var starts := RestoreRun.Starts(s);
    assert forall i | 0 <= i < |starts| :: starts[i] == [];
    NothingApart();
    RestoreRun.DumpRestoresWhole(s, out);
    var all := RestoreRun.Appended(starts, out);
    assert forall i | 0 <= i < |out| :: all[i] == out[i];
    assert all == out;
  }

  /** When two written ids collide and duplicates are tolerated, documents are lost under a clean report. */
  lemma CollidingIdsAreLost(s: RestoreRun.Setup<Document>, plan: Option<Plan>, filters: DumpPlan.Filters,
                            db: DatabaseContents, out: seq<seq<Document>>)
    requires s.Valid() && s.rule == BatchInsert.DuplicateId && s.options.clean && RestoreRun.TargetAnswers(s)
    requires DumpOf(s.codec, plan, filters, db, s.sources, out)
    ensures RestoreRun.CleanReport(RestoreRun.Gathered(RestoreRun.SequentialResults(s))) &&
            RestoreRun.SequentialTarget(s) != out <==>
            !RestoreRun.AllApart(out) &&
            forall i | 0 <= i < |out| && !BatchInsert.IdsApart(out[i]) :: s.Tolerance(i)(ErrorExclusions.DUPLICATE_ID)
  {
    hide BatchInsert.IdsApart, RestoreRun.Gathered, RestoreRun.TargetAnswers, RestoreRun.CleanReport, DumpOf;
    RestoredAsDumped(s, plan, filters, db, out);
  }

  /** A plan that gives every user the same `_id`. */
  function SameId(): Plan {
    map["users" := CollectionPlan(d => true, None, [CompiledRule("_id", d => true, None, (v, d) => Success(Null))])]
  }

  function WithId(id: Value): Document {
    Single("_id", id)
  }

  lemma SameIdEmits(id: Value)
    ensures Emit(Some(SameId()), "users", WithId(id)) == Success(Some(WithId(Null)))
  {
    var rules := SameId()["users"].rules;
    assert rules[..0] == [];
    assert ApplyRules(rules[..0], WithId(id)) == Success(WithId(id));
    Paths.SplitSegment("_id");
  }

  /** A restore of two copies of one document, duplicates excluded. */
  function TwoCopies(d: Document, o: RestoreItem.Options, src: RestoreItem.ItemSource): RestoreRun.Setup<Document> {
    RestoreRun.Setup(RestoreRun.OneDocument(d), BatchInsert.DuplicateId, ErrorExclusions.Exclusions([11000], [], []),
                     o, [src], [[]])
  }

  /**
   Such an input: users 1 and 2 are both dumped with one `_id`; restored with code 11000 excluded, one
   is left, and the report is clean.
   */
  lemma TwoUsersBecomeOne(o: RestoreItem.Options, src: RestoreItem.ItemSource)
    requires o.clean && RestoreItem.Answers(o, src) && src.recorded == Success(2)
    requires src.blob == Success([5, 0, 0, 0, 0, 5, 0, 0, 0, 0])
    ensures var users, s := [WithId(Int32(1)), WithId(Int32(2))], TwoCopies(WithId(Null), o, src);
            DumpOf(s.codec, Some(SameId()), map[], [("users", users)], s.sources, [[WithId(Null), WithId(Null)]]) &&
            RestoreRun.CleanReport(RestoreRun.Gathered(RestoreRun.SequentialResults(s))) &&
            RestoreRun.SequentialTarget(s) == [[WithId(Null)]]
  {
    hide Emitted, Streamed, Emit, Frames, AllFramed, RestoreItem.Answers, RestoreRun.Gathered;
    SameIdEmits(Int32(1));
    SameIdEmits(Int32(2));
    TwoEmitted(Some(SameId()), "users", WithId(Int32(1)), WithId(Int32(2)), WithId(Null));
    TwoFrames(WithId(Null));
    OneCopyStays(WithId(Null), o, src);
  }

  lemma OneCopyStays(d: Document, o: RestoreItem.Options, src: RestoreItem.ItemSource)
    requires o.clean && RestoreItem.Answers(o, src) && src.recorded == Success(2) && Get(d, "_id").Some?
    requires src.blob == Success([5, 0, 0, 0, 0, 5, 0, 0, 0, 0])
    ensures var s := TwoCopies(d, o, src);
            RestoreRun.CleanReport(RestoreRun.Gathered(RestoreRun.SequentialResults(s))) &&
            RestoreRun.SequentialTarget(s) == [[d]]
  {
    var s := TwoCopies(d, o, src);
    TwoFrames(d);
    BatchInsert.ToleratedIffDuplicateIs(s.Tolerance(0));
    OnlyOneStays(d);
    assert s.Tolerance(0)(ErrorExclusions.DUPLICATE_ID);
    hide RestoreItem.Answers, RestoreItem.ItemOutcome, Frames, AllFramed, BatchInsert.AllTolerated, RestoreRun.Gathered;
    hide BatchInsert.OneByOne, ErrorExclusions.For;
    RestoreItem.WholeBlobRestores(s.codec, BatchInsert.DuplicateId, s.Tolerance(0), o, src, [], [d, d]);
    var results := RestoreRun.SequentialResults(s);
    assert results[0] == s.Outcome(0, []).1;
    RestoreRun.UnreportedGathers(results);
  }

  lemma TwoFrames(d: Document)
    ensures AllFramed(RestoreRun.OneDocument(d), [d, d])
    ensures Frames(RestoreRun.OneDocument(d), [d, d]) == [5, 0, 0, 0, 0, 5, 0, 0, 0, 0]
  {
    var frame: Bytes := [5, 0, 0, 0, 0];
    RestoreRun.OneFrame(d);
    FramesConcat(RestoreRun.OneDocument(d), [d], [d]);
    assert [d, d] == [d] + [d] && frame + frame == [5, 0, 0, 0, 0, 5, 0, 0, 0, 0];
  }

  lemma TwoEmitted(plan: Option<Plan>, collection: string, d: Document, e: Document, x: Document)
    requires Emit(plan, collection, d) == Emit(plan, collection, e) == Success(Some(x))
    ensures Streamed(map[], collection, [d, e]) == [d, e] && Emitted(plan, collection, [d, e]) == Success([x, x])
  {
    TwoStreamed(collection, d, e);
    hide Emit, Emitted, Streamed;
    NothingEmitted(plan, collection);
    assert [d, e][..0] == [] && [d, e][..2] == [d, e] && [] + [x] == [x] && [x] + [x] == [x, x];
    EmittedStep(plan, collection, [d, e], 0);
    EmittedStep(plan, collection, [d, e], 1);
  }

  lemma TwoStreamed(collection: string, d: Document, e: Document)
    ensures Streamed(map[], collection, [d, e]) == [d, e]
  {
    assert [d, e][1..] == [e] && [e][1..] == [] && [e] + [] == [e] && [d] + [e] == [d, e];
    assert Streamed(map[], collection, []) == [];
    assert Streamed(map[], collection, [e]) == [e];
  }

  lemma OnlyOneStays(d: Document)
    requires Get(d, "_id").Some?
    ensures BatchInsert.OneByOne(BatchInsert.DuplicateId, [], [d, d]) == [d]
  {
    assert [d, d][1..] == [d] && [d][1..] == [] && d in [d];
    assert BatchInsert.DuplicateId([], d) == None && BatchInsert.DuplicateId([d], d).Some? && [] + [d] == [d];
    assert BatchInsert.OneByOne(BatchInsert.DuplicateId, [d], []) == [d];
    assert BatchInsert.OneByOne(BatchInsert.DuplicateId, [d], [d]) == [d];
  }

  /** With nothing excluded, as by default, the report is clean exactly when everything was restored. */
  lemma DefaultReportIsHonest(s: RestoreRun.Setup<Document>, plan: Option<Plan>, filters: DumpPlan.Filters,
                              db: DatabaseContents, out: seq<seq<Document>>)
    requires s.Valid() && s.rule == BatchInsert.DuplicateId && s.options.clean && RestoreRun.TargetAnswers(s)
    requires DumpOf(s.codec, plan, filters, db, s.sources, out) && s.exclusions == ErrorExclusions.NO_EXCLUSIONS
    ensures RestoreRun.CleanReport(RestoreRun.Gathered(RestoreRun.SequentialResults(s))) <==>
            RestoreRun.SequentialTarget(s) == out
  {
    hide BatchInsert.IdsApart, RestoreRun.Gathered, RestoreRun.TargetAnswers, RestoreRun.CleanReport;
    RestoredAsDumped(s, plan, filters, db, out);
    assert forall i | 0 <= i < |out| :: !s.Tolerance(i)(ErrorExclusions.DUPLICATE_ID);
  }

  /** A database whose ids are its own is restored whole when no plan touches `_id` but by an injective rule. */
  lemma IdsOfTheirOwnRestoreWhole(s: RestoreRun.Setup<Document>, plan: Option<Plan>, filters: DumpPlan.Filters,
                                  db: DatabaseContents, out: seq<seq<Document>>)
    requires s.Valid() && s.rule == BatchInsert.DuplicateId && s.options.clean && RestoreRun.TargetAnswers(s)
    requires DumpOf(s.codec, plan, filters, db, s.sources, out)
    requires forall i | 0 <= i < |db| ::
               KeepsIdsApart(plan, db[i].0) && BatchInsert.IdsApart(db[i].1) &&
               forall d <- db[i].1 :: Get(d, "_id").Some?
    ensures RestoreRun.SequentialTarget(s) == out
    ensures RestoreRun.CleanReport(RestoreRun.Gathered(RestoreRun.SequentialResults(s)))
  {
    hide Emitted, KeepsIdsApart, BatchInsert.IdsApart, RestoreRun.Gathered, RestoreRun.TargetAnswers;
    forall i | 0 <= i < |db|
      ensures BatchInsert.IdsApart(out[i])
    {
      var stream := Streamed(filters, db[i].0, db[i].1);
      StreamedIdsApart(filters, db[i].0, db[i].1);
      EmittedIdsStayApart(plan, db[i].0, stream);
    }
    RestoredAsDumped(s, plan, filters, db, out);
  }

  // A reference, dumped.

  /** What dumping a document of the database writes. */
  ghost predicate WritesAs(plan: Plan, filters: DumpPlan.Filters, db: DumpPlan.Database, n: Subset.Node, x: Document) {
    n.collection in db &&
    var blob := Emitted(Some(plan), n.collection, Streamed(filters, n.collection, db[n.collection]));
    blob.Success? && x in blob.value && TransformOutcome(plan, n.collection, n.doc) == Success(x)
  }

  /** No custom query leaves the document out, and dumping its collection succeeds. */
  predicate GetsThrough(plan: Plan, filters: DumpPlan.Filters, db: DumpPlan.Database, n: Subset.Node) {
    ShouldInclude(plan, n.collection, n.doc) &&
    (n.collection in db ==> Emitted(Some(plan), n.collection,
                                    Streamed(filters, n.collection, db[n.collection])).Success?)
  }

  lemma DumpedIsWritten(plan: Plan, filters: DumpPlan.Filters, db: DumpPlan.Database, n: Subset.Node)
    requires DumpPlan.Dumped(db, filters, n) && GetsThrough(plan, filters, db, n)
    ensures TransformOutcome(plan, n.collection, n.doc).Success?
    ensures WritesAs(plan, filters, db, n, TransformOutcome(plan, n.collection, n.doc).value)
  {
    hide TransformOutcome, ShouldInclude, Emitted;
    var stream := Streamed(filters, n.collection, db[n.collection]);
    assert n.doc in stream;
    EachEmits(Some(plan), n.collection, stream, n.doc);
    var x := Emit(Some(plan), n.collection, n.doc).value.value;
    EmittedExactly(Some(plan), n.collection, stream, x);
  }

  /**
   Subsetting and anonymization together keep a reference: when a dumped document refers to another
   by the same value, that one is in its collection's blob too, and the two written documents hold
   the same value on both sides of the reference if and only if the gates of the two sides are open
   or shut alike, or the transformer does not change the value.
   */
  lemma DumpedReferenceHolds(k: Inheritance.Compilation, db: DumpPlan.Database, filters: DumpPlan.Filters,
                             c: CollectionConfig, r: Rule, e: Edge, t: Transformer, n: Subset.Node, m: Subset.Node)
    requires DumpPlan.Intact(db, k.edges, filters) && DumpPlan.Dumped(db, filters, n) && DumpPlan.Refers(db, [e], n, m)
    requires GetPath(n.doc, e.fromField) == GetPath(m.doc, e.toField) && m.collection == c.collection
    requires GetsThrough(k.plan, filters, db, n) && GetsThrough(k.plan, filters, db, m)
    requires k.Valid() && Inheritance.Propagates(k.configs, k.edges, c, r, e)
    requires LastOf(k.configs, c.collection) == Some(c) && Inheritance.Times(k.configs, e.fromCollection) <= 1
    requires Inheritance.Builds(k.reg, r.name, r.params, t) && Inheritance.ValueOnly(t)
    requires Inheritance.Alone(k.lang, k.Entry(c.collection), r, m.doc)
    requires Inheritance.Alone(k.lang, k.Entry(e.fromCollection), Inheritance.CopyFor(e, r), n.doc)
    ensures exists x, y :: WritesAs(k.plan, filters, db, n, x) && WritesAs(k.plan, filters, db, m, y)
    ensures forall x, y | WritesAs(k.plan, filters, db, n, x) && WritesAs(k.plan, filters, db, m, y) ::
              GetPath(x, e.fromField) == GetPath(y, e.toField) <==>
              (Inheritance.Runs(k.lang, c, r, m.doc) <==> k.Admits(e.fromCollection, n.doc)) ||
              Inheritance.KeepsValue(t, GetPath(m.doc, r.field), m.doc)
  {
    assert DumpPlan.Refers(db, k.edges, n, m) && DumpPlan.Dumped(db, filters, m) && n.collection == e.fromCollection;
    hide TransformOutcome, DumpPlan.Intact, DumpPlan.Dumped, DumpPlan.Refers, GetsThrough, Emitted, Streamed, IsPlan;
    hide GetPath, LastOf, Inheritance.Times, Inheritance.ValueOnly, Inheritance.Alone, Inheritance.Expanded;
    hide Inheritance.FirstSourceIs, Inheritance.Builds, CompileCollection, ReadableGate, Inheritance.Open;
    DumpedIsWritten(k.plan, filters, db, n);
    DumpedIsWritten(k.plan, filters, db, m);
    Inheritance.ReferenceStaysIff(k, c, r, e, t, m.doc, n.doc);
  }
}
