/**
 Running a restore over the collections of a dump, one after the other or by a pool of workers.
 Whatever the schedule, the report or error is the one of the sequential run, and a report is
 only given when every included collection was restored.
 */
module RestoreRun {
  import opened Wrappers
  import opened WorkerPool
  import opened RestoreItem
  import opened BatchInsert
  import opened ErrorExclusions
  import opened NameFilter
  import opened Blob
  import opened Bson

  datatype Report = Report(inserted: nat, skipped: nat, indexesCreated: nat, failed: seq<string>)

  // Gathering.

  function FirstFatal(results: seq<ItemResult>): Option<string> {
    if results == [] then None
    else if results[0].fatal.Some? then results[0].fatal
    else FirstFatal(results[1..])
  }

  function Totals(results: seq<ItemResult>): Report {
    if results == [] then Report(0, 0, 0, [])
    else
      var last := |results| - 1;
      var t, r := Totals(results[..last]), results[last];
      Report(t.inserted + r.inserted, t.skipped + r.skipped, t.indexesCreated + r.indexesCreated,
             t.failed + if r.failed.Some? then [r.failed.value] else [])
  }

  /** The report over all results, or the fatal error of the first collection that had one. */
  function Gathered(results: seq<ItemResult>): Result<Report, string> {
    match FirstFatal(results)
    case Some(e) => Failure(e)
    case None => Success(Totals(results))
  }

  lemma {:induction false} FatalPrefix(results: seq<ItemResult>, n: nat)
    requires n <= |results|
    ensures match FirstFatal(results[..n])
            case Some(e) => FirstFatal(results) == Some(e)
            case None => FirstFatal(results) == FirstFatal(results[n..])
    decreases n
  {
    if n > 0 {
      FatalPrefix(results[1..], n - 1);
      assert results[..n][1..] == results[1..][..n - 1];
      assert results[n..] == results[1..][n - 1..];
    }
  }

  lemma {:induction false} FatalIsFound(results: seq<ItemResult>, i: nat)
    requires i < |results| && results[i].fatal.Some?
    ensures FirstFatal(results).Some?
  {
    if i > 0 {
      FatalIsFound(results[1..], i - 1);
    }
  }

  /** The error returned is the lowest-numbered fatal one; without one there is none at all. */
  lemma {:induction false} FatalIsLowest(results: seq<ItemResult>)
    ensures match FirstFatal(results)
            case None => forall i | 0 <= i < |results| :: results[i].fatal == None
            case Some(e) => exists i | 0 <= i < |results| ::
              results[i].fatal == Some(e) && forall j | 0 <= j < i :: results[j].fatal == None
  {
    if results != [] {
      var rest := results[1..];
      FatalIsLowest(rest);
      assert forall i | 1 <= i < |results| :: results[i] == rest[i - 1];
      if results[0].fatal.Some? {
      } else if FirstFatal(rest).Some? {
        var i :| 0 <= i < |rest| && rest[i].fatal == FirstFatal(rest) && forall j | 0 <= j < i :: rest[j].fatal == None;
        assert results[i + 1].fatal == FirstFatal(rest);
      }
    }
  }

  method Gather(results: seq<ItemResult>) returns (r: Result<Report, string>)
    ensures r == Gathered(results)
  {
    var report := Report(0, 0, 0, []);
    for i := 0 to |results|
      invariant FirstFatal(results[..i]) == None && report == Totals(results[..i])
    {
      var result := results[i];
      assert results[..i + 1][..i] == results[..i];
      report := report.(inserted := report.inserted + result.inserted, skipped := report.skipped + result.skipped,
                        indexesCreated := report.indexesCreated + result.indexesCreated);
      if result.failed.Some? {
        report := report.(failed := report.failed + [result.failed.value]);
      }
      FatalPrefix(results, i);
      FatalPrefix(results[..i + 1], i);
      assert results[..i + 1][i..] == [result];
      if result.fatal.Some? {
        return Failure(result.fatal.value);
      }
    }
    assert results[..|results|] == results;
    r := Success(report);
  }

  /** The totals of a report add up, result by result, and the failed are listed in order. */
  lemma {:induction false} TotalsAddUp(a: seq<ItemResult>, b: seq<ItemResult>, r: ItemResult)
    ensures var x, y := Totals(a), Totals(b);
            Totals(a + b) == Report(x.inserted + y.inserted, x.skipped + y.skipped, x.indexesCreated + y.indexesCreated,
                                    x.failed + y.failed)
    ensures Totals([r]) ==
            Report(r.inserted, r.skipped, r.indexesCreated, if r.failed.Some? then [r.failed.value] else [])
    decreases |b|
  {
    assert [r][..0] == [];
    if b == [] {
      assert a + b == a;
    } else {
      var last := |b| - 1;
      assert (a + b)[..|a + b| - 1] == a + b[..last];
      TotalsAddUp(a, b[..last], r);
    }
  }

  // The items.

  /** The collections a dump's table of contents lists, per database. */
  type Toc = seq<(string, seq<string>)>

  /** The included collections of one database, in its order. */
  function KeepIn(db: string, colls: seq<string>, only: seq<string>, never: seq<string>): seq<(string, string)> {
    if colls == [] then []
    else
      var last := |colls| - 1;
      KeepIn(db, colls[..last], only, never) + if Included(colls[last], only, never) then [(db, colls[last])] else []
  }

  function Queue(toc: Toc, only: seq<string>, never: seq<string>): seq<(string, string)> {
    if toc == [] then []
    else
      var last := |toc| - 1;
      Queue(toc[..last], only, never) + KeepIn(toc[last].0, toc[last].1, only, never)
  }

  lemma {:induction false} KeptExactly(db: string, colls: seq<string>, only: seq<string>, never: seq<string>,
                                       item: (string, string))
    ensures item in KeepIn(db, colls, only, never) <==> item.0 == db && item.1 in colls && Included(item.1, only, never)
    decreases |colls|
  {
    if colls != [] {
      var last := |colls| - 1;
      KeptExactly(db, colls[..last], only, never, item);
      assert colls == colls[..last] + [colls[last]];
    }
  }

  /** Exactly the included collections of the dump are queued. */
  lemma {:induction false} QueuedExactly(toc: Toc, only: seq<string>, never: seq<string>, item: (string, string))
    ensures item in Queue(toc, only, never) <==>
            item.1 !in never && (only == [] || item.1 in only) && exists d :: d in toc && d.0 == item.0 && item.1 in d.1
    decreases |toc|
  {
    if toc != [] {
      var last := |toc| - 1;
      QueuedExactly(toc[..last], only, never, item);
      KeptExactly(toc[last].0, toc[last].1, only, never, item);
      assert toc == toc[..last] + [toc[last]];
    }
  }

  lemma {:induction false} KeepInConcat(db: string, a: seq<string>, b: seq<string>, only: seq<string>,
                                        never: seq<string>)
    ensures KeepIn(db, a + b, only, never) == KeepIn(db, a, only, never) + KeepIn(db, b, only, never)
    decreases |b|
  {
    if b == [] {
      assert a + b == a;
    } else {
      var last := |b| - 1;
      assert (a + b)[..|a + b| - 1] == a + b[..last];
      KeepInConcat(db, a, b[..last], only, never);
    }
  }

  /** The queue has the order of the table of contents: database by database, collection by collection. */
  lemma {:induction false} QueueInOrder(a: Toc, b: Toc, db: string, x: seq<string>, y: seq<string>, coll: string,
                                        only: seq<string>, never: seq<string>)
    ensures Queue(a + b, only, never) == Queue(a, only, never) + Queue(b, only, never)
    ensures Queue([(db, x + y)], only, never) == Queue([(db, x)], only, never) + Queue([(db, y)], only, never)
    ensures Queue([(db, [coll])], only, never) ==
            if coll !in never && (only == [] || coll in only) then [(db, coll)] else []
    decreases |b|
  {
    KeepInConcat(db, x, y, only, never);
    OneDatabase(db, x, only, never);
    OneDatabase(db, y, only, never);
    OneDatabase(db, x + y, only, never);
    OneDatabase(db, [coll], only, never);
    assert [coll][..0] == [] && KeepIn(db, [], only, never) == [];
    if b == [] {
      assert a + b == a;
    } else {
      var last := |b| - 1;
      assert (a + b)[..|a + b| - 1] == a + b[..last];
      QueueInOrder(a, b[..last], db, x, y, coll, only, never);
    }
  }

  lemma OneDatabase(db: string, colls: seq<string>, only: seq<string>, never: seq<string>)
    ensures Queue([(db, colls)], only, never) == KeepIn(db, colls, only, never)
  {
    hide KeepIn;
    var one: Toc := [(db, colls)];
    assert one[..0] == [] && Queue([], only, never) == [];
  }

  method QueueItems(toc: Toc, only: seq<string>, never: seq<string>) returns (items: seq<(string, string)>)
    ensures items == Queue(toc, only, never)
  {
    items := [];
    for i := 0 to |toc|
      invariant items == Queue(toc[..i], only, never)
    {
      ghost var before := items;
      var (db, colls) := toc[i];
      for j := 0 to |colls|
        invariant items == before + KeepIn(db, colls[..j], only, never)
      {
        assert colls[..j + 1][..j] == colls[..j];
        if Included(colls[j], only, never) {
          items := items + [(db, colls[j])];
        }
      }
      assert colls[..|colls|] == colls;
      assert toc[..i + 1][..i] == toc[..i];
    }
    assert toc[..|toc|] == toc;
  }

  // The run.

  /** Everything one restore works with: the dump, the options, and the target's collections as they are. */
  datatype Setup<!D> = Setup(
    codec: Codec<D>,
    rule: Rule<D>,
    exclusions: Exclusions,
    options: Options,
    sources: seq<ItemSource>,
    target: seq<seq<D>>)
  {
    ghost predicate Valid() {
      |target| == |sources|
    }

    /** What is tolerated when the i-th collection is restored. */
    function Tolerance(i: nat): InsertError -> bool
      requires i < |sources|
    {
      For(exclusions, sources[i].collection)
    }

    function Outcome(i: nat, have: seq<D>): (seq<D>, ItemResult) {
      if i < |sources| then ItemOutcome(codec, rule, Tolerance(i), options, sources[i], have) else (have, NOTHING)
    }
  }

  function RestoreJob<D>(s: Setup<D>): Job<seq<D>, ItemResult> {
    Job((i: nat, have: seq<D>) => s.Outcome(i, have),
        (r: ItemResult) => r.fatal.Some? && s.options.exitOnError,
        s.target)
  }

  /** No new collection is started behind a fatal error, and only if that is asked for; other failures never stop it. */
  lemma StopsWhen<D>(s: Setup<D>, r: ItemResult)
    ensures RestoreJob(s).halts(r) <==> s.options.exitOnError && r.fatal != None
  {
  }

  function SequentialResults<D>(s: Setup<D>): seq<ItemResult>
    requires s.Valid()
  {
    seq(|s.sources|, i requires 0 <= i < |s.sources| => s.Outcome(i, s.target[i]).1)
  }

  function SequentialTarget<D>(s: Setup<D>): seq<seq<D>>
    requires s.Valid()
  {
    seq(|s.sources|, i requires 0 <= i < |s.sources| => s.Outcome(i, s.target[i]).0)
  }

  /** A result slot left empty counts as a collection where nothing happened. */
  function OrNothing(slots: seq<Option<ItemResult>>): seq<ItemResult> {
    seq(|slots|, i requires 0 <= i < |slots| => if slots[i].Some? then slots[i].value else NOTHING)
  }

  /** Items are left unclaimed only behind a fatal error, so the gathered outcome is the sequential one. */
  lemma PrefixGathersAlike<D>(s: Setup<D>, slots: seq<Option<ItemResult>>, target: seq<seq<D>>, k: nat)
    requires s.Valid() && CompletedPrefix(RestoreJob(s), slots, target, k)
    ensures Gathered(OrNothing(slots)) == Gathered(SequentialResults(s))
    ensures Gathered(OrNothing(slots)).Success? || !s.options.exitOnError ==>
              k == |s.sources| && target == SequentialTarget(s)
  {
    var job, all, got := RestoreJob(s), SequentialResults(s), OrNothing(slots);
    forall i | 0 <= i < k
      ensures got[i] == all[i]
    {
      assert slots[i] == Some(job.Outcome(i));
    }
    assert got[..k] == all[..k];
    FatalPrefix(got, k);
    FatalPrefix(all, k);
    if k < |s.sources| {
      var i :| 0 <= i < k && i < |job.cells| && job.halts(job.Outcome(i));
      FatalIsFound(all[..k], i);
    } else {
      assert got == all;
      forall i | 0 <= i < k
        ensures target[i] == SequentialTarget(s)[i]
      {
        assert target[i] == job.FinalCell(i);
      }
      assert target == SequentialTarget(s);
    }
  }

  /** The collections restored one after the other: every one of them, also after a failure. */
  method RestoreSequentially<D>(s: Setup<D>) returns (results: seq<ItemResult>, target: seq<seq<D>>)
    requires s.Valid()
    ensures results == SequentialResults(s) && target == SequentialTarget(s)
  {
    results, target := [], [];
    for i := 0 to |s.sources|
      invariant results == SequentialResults(s)[..i] && target == SequentialTarget(s)[..i]
    {
      var coll := new Collection(s.rule, s.target[i]);
      var result := RestoreCollection(s.codec, coll, s.Tolerance(i), s.options, s.sources[i]);
      results := results + [result];
      target := target + [coll.documents];
    }
  }

  /**
   The documents stage of a restore. The outcome does not depend on the number of workers or
   their schedule; on success the target is what the sequential run makes of it.
   */
  method RestoreDocuments<D>(s: Setup<D>) returns (r: Result<Report, string>, target: seq<seq<D>>)
    requires s.Valid()
    ensures r == Gathered(SequentialResults(s))
    ensures r.Success? || !s.options.exitOnError ==> target == SequentialTarget(s)
  {
    var jobs := if s.options.jobs < 1 then 1 else s.options.jobs;
    var results;
    if jobs <= 1 || |s.sources| <= 1 {
      results, target := RestoreSequentially(s);
    } else {
      var slots;
      ghost var k;
      slots, target, k := RunPool(RestoreJob(s), if jobs < |s.sources| then jobs else |s.sources|);
      PrefixGathersAlike(s, slots, target, k);
      results := OrNothing(slots);
    }
    r := Gather(results);
  }

  /** In dependency order, indexes come after all documents; the first that cannot be created is fatal. */
  function IndexesAfter(o: Options, sources: seq<ItemSource>): Result<nat, string> {
    if sources == [] then Success(0)
    else
      var last := |sources| - 1;
      match IndexesAfter(o, sources[..last])
      case Failure(e) => Failure(e)
      case Success(n) => match Created(o, sources[last], sources[last].indexes)
        case Failure(e) => Failure(e)
        case Success(m) => Success(n + m)
  }

  lemma {:induction false} IndexesFailEarly(o: Options, sources: seq<ItemSource>, n: nat)
    requires n <= |sources| && IndexesAfter(o, sources[..n]).Failure?
    ensures IndexesAfter(o, sources) == IndexesAfter(o, sources[..n])
    decreases |sources| - n
  {
    if n == |sources| {
      assert sources[..n] == sources;
    } else {
      assert sources[..n + 1][..n] == sources[..n];
      IndexesFailEarly(o, sources, n + 1);
    }
  }

  method CreateLateIndexes(o: Options, sources: seq<ItemSource>) returns (r: Result<nat, string>)
    ensures r == IndexesAfter(o, sources)
  {
    hide Created;
    var created := 0;
    for i := 0 to |sources|
      invariant IndexesAfter(o, sources[..i]) == Success(created)
    {
      assert sources[..i + 1][..i] == sources[..i];
      var one := CreateIndexes(o, sources[i]);
      match one {
        case Failure(e) =>
          IndexesFailEarly(o, sources, i + 1);
          return Failure(e);
        case Success(n) => created := created + n;
      }
    }
    assert sources[..|sources|] == sources;
    r := Success(created);
  }

  /** What creating the wanted indexes of one collection answers, one by one. */
  function IndexAnswers(o: Options, src: ItemSource): seq<Option<string>> {
    var wanted := Wants(o, src.indexes);
    seq(|wanted|, i requires 0 <= i < |wanted| => src.indexError(wanted[i]))
  }

  function AllIndexAnswers(o: Options, sources: seq<ItemSource>): seq<Option<string>> {
    if sources == [] then [] else IndexAnswers(o, sources[0]) + AllIndexAnswers(o, sources[1..])
  }

  /** Everything was created and counted, or the error is the first one met. */
  ghost predicate Tells(answers: seq<Option<string>>, r: Result<nat, string>) {
    match r
    case Success(n) => n == |answers| && forall i | 0 <= i < |answers| :: answers[i] == None
    case Failure(e) => exists i | 0 <= i < |answers| ::
      answers[i] == Some(e) && forall j | 0 <= j < i :: answers[j] == None
  }

  lemma TellsOne(o: Options, src: ItemSource)
    ensures Tells(IndexAnswers(o, src), Created(o, src, src.indexes))
  {
    hide Created, Wants;
    CreatedMeans(o, src, src.indexes);
    var wanted := Wants(o, src.indexes);
    if Created(o, src, src.indexes).Failure? {
      var e := Created(o, src, src.indexes).error;
      var i :| 0 <= i < |wanted| && src.indexError(wanted[i]) == Some(e) &&
        forall j | 0 <= j < i :: src.indexError(wanted[j]) == None;
      assert IndexAnswers(o, src)[i] == Some(e);
    }
  }

  lemma TellsBoth(a: seq<Option<string>>, b: seq<Option<string>>, n: nat, m: nat)
    requires Tells(a, Success(n)) && Tells(b, Success(m))
    ensures Tells(a + b, Success(n + m))
  {
  }

  lemma TellsLater(a: seq<Option<string>>, b: seq<Option<string>>, n: nat, e: string)
    requires Tells(a, Success(n)) && Tells(b, Failure(e))
    ensures Tells(a + b, Failure(e))
  {
    var i :| 0 <= i < |b| && b[i] == Some(e) && forall j | 0 <= j < i :: b[j] == None;
    assert (a + b)[n + i] == Some(e);
    assert forall j | n <= j < n + i :: (a + b)[j] == b[j - n];
  }

  lemma TellsEarly(a: seq<Option<string>>, b: seq<Option<string>>, e: string)
    requires Tells(a, Failure(e))
    ensures Tells(a + b, Failure(e))
  {
    var i :| 0 <= i < |a| && a[i] == Some(e) && forall j | 0 <= j < i :: a[j] == None;
    assert (a + b)[i] == Some(e);
  }

  lemma {:induction false} AllIndexAnswersAppend(o: Options, sources: seq<ItemSource>, src: ItemSource)
    ensures AllIndexAnswers(o, sources + [src]) == AllIndexAnswers(o, sources) + IndexAnswers(o, src)
  {
    hide IndexAnswers;
    var longer := sources + [src];
    if sources == [] {
      assert longer == [src] && longer[1..] == [];
    } else {
      assert longer[0] == sources[0] && longer[1..] == sources[1..] + [src];
      AllIndexAnswersAppend(o, sources[1..], src);
    }
  }

  /** The late stage creates every wanted index of every collection, or fails with the first that cannot be created. */
  lemma {:induction false} IndexesAfterMeans(o: Options, sources: seq<ItemSource>)
    ensures Tells(AllIndexAnswers(o, sources), IndexesAfter(o, sources))
    decreases |sources|
  {
    hide IndexAnswers, Created;
    if sources != [] {
      hide Tells;
      var last := |sources| - 1;
      var before, src := sources[..last], sources[last];
      IndexesAfterMeans(o, before);
      TellsOne(o, src);
      AllIndexAnswersAppend(o, before, src);
      assert sources == before + [src];
      var a, b := AllIndexAnswers(o, before), IndexAnswers(o, src);
      match IndexesAfter(o, before)
      case Failure(e) => TellsEarly(a, b, e);
      case Success(n) =>
        match Created(o, src, src.indexes)
        case Success(m) => TellsBoth(a, b, n, m);
        case Failure(e) => TellsLater(a, b, n, e);
    }
  }

  function RunOutcome<D>(s: Setup<D>, preData: Option<string>, postData: Option<string>): Result<Report, string>
    requires s.Valid()
  {
    if preData.Some? then Failure(preData.value)
    else
      match Gathered(SequentialResults(s))
      case Failure(e) => Failure(e)
      case Success(report) =>
        var late := if s.options.dependencyOrder then IndexesAfter(s.options, s.sources) else Success(0);
        match late
        case Failure(e) => Failure(e)
        case Success(n) =>
          if postData.Some? then Failure(postData.value)
          else Success(report.(indexesCreated := report.indexesCreated + n))
  }

  /** The stages of a restore: the first that fails gives the error; without one there is a report of all of them. */
  lemma StagesInOrder<D>(s: Setup<D>, preData: Option<string>, postData: Option<string>)
    requires s.Valid()
    ensures var r, data := RunOutcome(s, preData, postData), Gathered(SequentialResults(s));
            var late := IndexesAfter(s.options, s.sources);
            (preData.Some? ==> r == Failure(preData.value)) &&
            (preData == None && data.Failure? ==> r == Failure(data.error)) &&
            (preData == None && data.Success? && s.options.dependencyOrder && late.Failure? ==>
               r == Failure(late.error)) &&
            (preData == None && data.Success? && (s.options.dependencyOrder ==> late.Success?) && postData.Some? ==>
               r == Failure(postData.value)) &&
            (preData == None && data.Success? && (s.options.dependencyOrder ==> late.Success?) && postData == None ==>
               r.Success? && r.value.inserted == data.value.inserted && r.value.skipped == data.value.skipped &&
               r.value.failed == data.value.failed &&
               r.value.indexesCreated ==
                 data.value.indexesCreated + if s.options.dependencyOrder then late.value else 0)
  {
    hide Gathered, IndexesAfter, SequentialResults;
  }

  /** What is tolerated for the i-th collection: what is listed for all collections, or for the one of its name. */
  lemma ToleranceMeans<D>(s: Setup<D>, i: nat, e: InsertError)
    requires i < |s.sources|
    ensures s.Tolerance(i)(e) <==>
              (e.code.Some? && e.code.value in s.exclusions.globalErrorCodes) ||
              (e.indexName.Some? && e.indexName.value in s.exclusions.globalIndexNames) ||
              exists c <- s.exclusions.collections ::
                c.collection == s.sources[i].collection &&
                ((e.code.Some? && e.code.value in c.errorCodes) ||
                 (e.indexName.Some? && e.indexName.value in c.indexNames))
  {
  }

  /** A whole restore: hooks before and after, documents, and late indexes in dependency order. */
  method Run<D>(s: Setup<D>, preData: Option<string>, postData: Option<string>)
    returns (r: Result<Report, string>, target: seq<seq<D>>)
    requires s.Valid()
    ensures r == RunOutcome(s, preData, postData)
    ensures r.Success? ==> target == SequentialTarget(s)
  {
    hide Gathered, IndexesAfter, SequentialResults, SequentialTarget;
    if preData.Some? {
      return Failure(preData.value), s.target;
    }
    r, target := RestoreDocuments(s);
    if r.Failure? {
      return;
    }
    var report := r.value;
    if s.options.dependencyOrder {
      var created := CreateLateIndexes(s.options, s.sources);
      if created.Failure? {
        return Failure(created.error), target;
      }
      report := report.(indexesCreated := report.indexesCreated + created.value);
    }
    if postData.Some? {
      return Failure(postData.value), target;
    }
    r := Success(report);
  }

  /**
   The setup of a restore: one item for each queued collection, read from the dump and restored over
   what the target holds.
   */
  function SetupFor<D>(codec: Codec<D>, rule: Rule<D>, x: Exclusions, o: Options, items: seq<(string, string)>,
                       source: ((string, string)) -> ItemSource, existing: ((string, string)) -> seq<D>): (s: Setup<D>)
    ensures s.Valid() && |s.sources| == |items|
  {
    Setup(codec, rule, x, o,
          seq(|items|, i requires 0 <= i < |items| => source(items[i])),
          seq(|items|, i requires 0 <= i < |items| => existing(items[i])))
  }

  /** What one collection's item makes of it. */
  function Restored<D>(s: Setup<D>, src: ItemSource, have: seq<D>): seq<D> {
    ItemOutcome(s.codec, s.rule, For(s.exclusions, src.collection), s.options, src, have).0
  }

  /** Every included collection of the table of contents was restored, as its own item says. */
  ghost predicate EachRestored<D(!new)>(toc: Toc, only: seq<string>, never: seq<string>, s: Setup<D>,
                                        source: ((string, string)) -> ItemSource,
                                        existing: ((string, string)) -> seq<D>, target: seq<seq<D>>)
  {
    var items := Queue(toc, only, never);
    |target| == |items| && forall d <- toc, name <- d.1 | Included(name, only, never) ::
      exists i | 0 <= i < |items| :: items[i] == (d.0, name) &&
        target[i] == Restored(s, source((d.0, name)), existing((d.0, name)))
  }

  lemma QueueIsRestored<D(!new)>(toc: Toc, only: seq<string>, never: seq<string>, s: Setup<D>,
                                 source: ((string, string)) -> ItemSource, existing: ((string, string)) -> seq<D>)
    requires s == SetupFor(s.codec, s.rule, s.exclusions, s.options, Queue(toc, only, never), source, existing)
    ensures EachRestored(toc, only, never, s, source, existing, SequentialTarget(s))
  {
    hide ItemOutcome, Queue;
    var items := Queue(toc, only, never);
    forall d <- toc, name <- d.1 | Included(name, only, never)
      ensures exists i | 0 <= i < |items| :: items[i] == (d.0, name) &&
                SequentialTarget(s)[i] == Restored(s, source((d.0, name)), existing((d.0, name)))
    {
      QueuedExactly(toc, only, never, (d.0, name));
      var i :| 0 <= i < |items| && items[i] == (d.0, name);
      assert SequentialTarget(s)[i] == s.Outcome(i, s.target[i]).0;
    }
  }

  /** A restore from the table of contents on: an Ok means that no included collection was left out. */
  method RestoreDump<D(!new)>(toc: Toc, only: seq<string>, never: seq<string>, codec: Codec<D>, rule: Rule<D>,
                              x: Exclusions, o: Options, source: ((string, string)) -> ItemSource,
                              existing: ((string, string)) -> seq<D>, preData: Option<string>, postData: Option<string>)
    returns (r: Result<Report, string>, target: seq<seq<D>>, ghost s: Setup<D>)
    ensures s == SetupFor(codec, rule, x, o, Queue(toc, only, never), source, existing)
    ensures r == RunOutcome(s, preData, postData)
    ensures r.Success? ==> target == SequentialTarget(s) &&
                           EachRestored(toc, only, never, s, source, existing, target)
  {
    hide EachRestored, RunOutcome;
    var items := QueueItems(toc, only, never);
    var setup := SetupFor(codec, rule, x, o, items, source, existing);
    s := setup;
    r, target := Run(setup, preData, postData);
    QueueIsRestored(toc, only, never, s, source, existing);
  }

  /** A report without failed collections means every collection was restored unreported. */
  lemma {:induction false} CleanReportMeansAllRestored(results: seq<ItemResult>)
    requires Gathered(results).Success? && Gathered(results).value.failed == []
    ensures forall i | 0 <= i < |results| :: Unreported(results[i])
    decreases |results|
  {
    FatalIsLowest(results);
    if results != [] {
      var last := |results| - 1;
      FatalPrefix(results, last);
      CleanReportMeansAllRestored(results[..last]);
      assert forall i | 0 <= i < last :: results[i] == results[..last][i];
    }
  }

  // A dump and its restore.

  /** Every collection of the dump is whole: its blob frames these documents, and as many were recorded. */
  ghost predicate WholeDump<D(!new)>(codec: Codec<D>, sources: seq<ItemSource>, contents: seq<seq<D>>) {
    |sources| == |contents| && forall i | 0 <= i < |sources| ::
      AllFramed(codec, contents[i]) &&
      sources[i].blob == Success(Frames(codec, contents[i])) && sources[i].recorded == Success(|contents[i]|)
  }

  /** Every collection's blob is the frames of these documents, up to some byte. */
  ghost predicate CutDump<D(!new)>(codec: Codec<D>, sources: seq<ItemSource>, contents: seq<seq<D>>, cuts: seq<nat>) {
    |sources| == |contents| == |cuts| && forall i | 0 <= i < |sources| ::
      AllFramed(codec, contents[i]) && cuts[i] <= |Frames(codec, contents[i])| &&
      sources[i].blob == Success(Frames(codec, contents[i])[..cuts[i]])
  }

  ghost predicate TargetAnswers<D>(s: Setup<D>) {
    forall i | 0 <= i < |s.sources| :: Answers(s.options, s.sources[i])
  }

  /** What each collection holds before its documents arrive: nothing with `clean`, else what was there. */
  function Starts<D>(s: Setup<D>): (starts: seq<seq<D>>)
    requires s.Valid()
    ensures |starts| == |s.sources|
  {
    seq(|s.sources|, i requires 0 <= i < |s.sources| => StartOf(s.options, s.target[i]))
  }

  function Appended<D>(starts: seq<seq<D>>, contents: seq<seq<D>>): seq<seq<D>>
    requires |starts| == |contents|
  {
    seq(|starts|, i requires 0 <= i < |starts| => starts[i] + contents[i])
  }

  ghost predicate AllApart(collections: seq<seq<Document>>) {
    forall i | 0 <= i < |collections| :: IdsApart(collections[i])
  }

  ghost predicate AllUnreported(results: seq<ItemResult>) {
    forall i | 0 <= i < |results| :: Unreported(results[i])
  }

  /** The restore gives a report, and no collection on its failed list. */
  predicate CleanReport(r: Result<Report, string>) {
    r.Success? && r.value.failed == []
  }

  lemma {:induction false} UnreportedGathers(results: seq<ItemResult>)
    requires AllUnreported(results)
    ensures CleanReport(Gathered(results))
    decreases |results|
  {
    FatalIsLowest(results);
    if results != [] {
      var last := |results| - 1;
      FatalPrefix(results, last);
      UnreportedGathers(results[..last]);
    }
  }

  /** A clean report is only given when metadata, target and indexes answered for every collection. */
  lemma CleanReportAnswers<D(!new)>(s: Setup<D>)
    requires s.Valid() && CleanReport(Gathered(SequentialResults(s)))
    ensures TargetAnswers(s)
  {
    hide InsertBlob, Created, Gathered, For;
    CleanReportMeansAllRestored(SequentialResults(s));
    forall i | 0 <= i < |s.sources|
      ensures Answers(s.options, s.sources[i])
    {
      assert Unreported(SequentialResults(s)[i]);
    }
  }

  /** What settling the whole frames of the i-th blob, one document at a time, comes to. */
  function SettledOf<D>(s: Setup<D>, contents: seq<seq<D>>, cuts: seq<nat>, i: nat): Settled<D>
    requires s.Valid() && |s.sources| == |contents| == |cuts| && i < |contents|
  {
    SettleInOrder(s.rule, s.Tolerance(i), Starts(s)[i],
                  contents[i][..WholeFrames(s.codec, contents[i], cuts[i])])
  }

  /** The i-th blob ends on a frame boundary with no fewer documents than recorded. */
  predicate CountsAgree<D>(s: Setup<D>, contents: seq<seq<D>>, cuts: seq<nat>, i: nat)
    requires |s.sources| == |contents| == |cuts| && i < |contents|
  {
    s.sources[i].recorded.Success? &&
    var k := WholeFrames(s.codec, contents[i], cuts[i]);
    |Frames(s.codec, contents[i][..k])| == cuts[i] && k >= s.sources[i].recorded.value
  }

  /**
   What a clean report says, for any refusals, tolerances and cuts: it is given exactly when metadata,
   target and indexes answer, and every blob ends on a frame boundary with no fewer documents than
   recorded, none of which meets an intolerable error. Each collection then holds what inserting
   them one at a time leaves.
   */
  lemma CleanReportIff<D(!new)>(s: Setup<D>, contents: seq<seq<D>>, cuts: seq<nat>)
    requires s.Valid() && CutDump(s.codec, s.sources, contents, cuts)
    ensures CleanReport(Gathered(SequentialResults(s))) <==>
              TargetAnswers(s) && forall i | 0 <= i < |s.sources| ::
                CountsAgree(s, contents, cuts, i) && SettledOf(s, contents, cuts, i).error == None
    ensures CleanReport(Gathered(SequentialResults(s))) ==>
              forall i | 0 <= i < |s.sources| :: SequentialTarget(s)[i] == SettledOf(s, contents, cuts, i).have
  {
    hide ItemOutcome, SettleInOrder, Gathered, AllFramed, Frames, Created, For, Unreported;
    var results, target := SequentialResults(s), SequentialTarget(s);
    forall i | 0 <= i < |s.sources|
      ensures Unreported(results[i]) <==>
                Answers(s.options, s.sources[i]) && CountsAgree(s, contents, cuts, i) &&
                SettledOf(s, contents, cuts, i).error == None
      ensures Unreported(results[i]) ==> target[i] == SettledOf(s, contents, cuts, i).have
    {
      UnreportedIff(s.codec, s.rule, s.Tolerance(i), s.options, s.sources[i], s.target[i], contents[i], cuts[i]);
    }
    if CleanReport(Gathered(results)) {
      CleanReportMeansAllRestored(results);
    } else if AllUnreported(results) {
      UnreportedGathers(results);
    }
  }

  /**
   With nothing tolerated, a clean report says that every dumped document was put in, in order; it is
   given exactly when metadata, target and indexes answer and no document is refused.
   */
  lemma IntolerantReportMeans<D(!new)>(s: Setup<D>, contents: seq<seq<D>>)
    requires s.Valid() && WholeDump(s.codec, s.sources, contents)
    requires forall i | 0 <= i < |s.sources| :: NoneTolerated(s.rule, s.Tolerance(i))
    ensures CleanReport(Gathered(SequentialResults(s))) <==>
              TargetAnswers(s) && forall i | 0 <= i < |contents| :: AllGoIn(s.rule, Starts(s)[i], contents[i])
    ensures CleanReport(Gathered(SequentialResults(s))) ==> SequentialTarget(s) == Appended(Starts(s), contents)
  {
    hide Gathered, AllFramed, Frames, NoneTolerated, AllGoIn, SettleInOrder, CleanReport, TargetAnswers, For, Starts;
    hide ItemOutcome;
    var cuts: seq<nat> := seq(|contents|, i requires 0 <= i < |contents| => |Frames(s.codec, contents[i])|);
    assert forall i | 0 <= i < |contents| :: Frames(s.codec, contents[i])[..cuts[i]] == Frames(s.codec, contents[i]);
    CleanReportIff(s, contents, cuts);
    forall i | 0 <= i < |contents|
      ensures CountsAgree(s, contents, cuts, i)
      ensures SettledOf(s, contents, cuts, i).error == None <==> AllGoIn(s.rule, Starts(s)[i], contents[i])
      ensures SettledOf(s, contents, cuts, i).error == None ==>
                SettledOf(s, contents, cuts, i).have == Starts(s)[i] + contents[i]
    {
      AllFramesWhole(s.codec, contents[i]);
      assert contents[i][..|contents[i]|] == contents[i];
      IntolerantInOrder(s.rule, s.Tolerance(i), Starts(s)[i], contents[i]);
      InOrderAll(s.rule, s.Tolerance(i), Starts(s)[i], contents[i]);
    }
  }

  lemma {:induction false} FlattenAppend<D>(a: seq<seq<D>>, x: seq<D>)
    ensures Flatten(a + [x]) == Flatten(a) + x
  {
    if a == [] {
      assert a + [x] == [x] && [x][1..] == [];
    } else {
      assert (a + [x])[1..] == a[1..] + [x];
      FlattenAppend(a[1..], x);
    }
  }

  lemma {:induction false} InsertedAddUp<D>(results: seq<ItemResult>, contents: seq<seq<D>>)
    requires |results| == |contents|
    requires forall i | 0 <= i < |results| :: results[i].inserted == |contents[i]| && results[i].skipped == 0
    ensures Totals(results).inserted == |Flatten(contents)| && Totals(results).skipped == 0
    decreases |results|
  {
    if results != [] {
      var last := |results| - 1;
      InsertedAddUp(results[..last], contents[..last]);
      FlattenAppend(contents[..last], contents[last]);
      assert contents == contents[..last] + [contents[last]];
    }
  }

  /** With nothing tolerated, a clean report counts every dumped document as inserted and none as skipped. */
  lemma CleanReportCounts<D(!new)>(s: Setup<D>, contents: seq<seq<D>>)
    requires s.Valid() && WholeDump(s.codec, s.sources, contents)
    requires forall i | 0 <= i < |s.sources| :: NoneTolerated(s.rule, s.Tolerance(i))
    requires CleanReport(Gathered(SequentialResults(s)))
    ensures var r := Gathered(SequentialResults(s)).value;
            r.inserted == |Flatten(contents)| && r.skipped == 0
  {
    hide AllFramed, Frames, NoneTolerated, AllGoIn, For, ItemOutcome, Answers, FirstFatal, Totals;
    IntolerantReportMeans(s, contents);
    var results := SequentialResults(s);
    forall i | 0 <= i < |results|
      ensures results[i].inserted == |contents[i]| && results[i].skipped == 0
    {
      assert Answers(s.options, s.sources[i]) && AllGoIn(s.rule, Starts(s)[i], contents[i]);
      WholeBlobGoesInIff(s.codec, s.rule, s.Tolerance(i), s.options, s.sources[i], s.target[i], contents[i]);
    }
    InsertedAddUp(results, contents);
  }

  /** A collection whose duplicates are tolerated or absent goes unreported; any other is reported. */
  lemma UnreportedIffApart(s: Setup<Document>, contents: seq<seq<Document>>, i: nat)
    requires s.Valid() && s.rule == DuplicateId && WholeDump(s.codec, s.sources, contents) && TargetAnswers(s)
    requires i < |s.sources| && IdsApart(Starts(s)[i])
    ensures (SequentialTarget(s)[i] == Starts(s)[i] + contents[i] <==> IdsApart(Starts(s)[i] + contents[i]))
    ensures Unreported(SequentialResults(s)[i]) <==>
              IdsApart(Starts(s)[i] + contents[i]) || s.Tolerance(i)(DUPLICATE_ID)
    ensures IdsApart(Starts(s)[i] + contents[i]) ==>
              SequentialResults(s)[i].inserted == |contents[i]| && SequentialResults(s)[i].skipped == 0
  {
    hide ItemOutcome, SettleInOrder, Framed, Frames, IdsApart, Answers, For, Unreported;
    var src, have, docs, excluded := s.sources[i], s.target[i], contents[i], s.Tolerance(i);
    var start := Starts(s)[i];
    assert Answers(s.options, src) && src.recorded.value <= |docs|;
    WholeBlobGoesInIff(s.codec, s.rule, excluded, s.options, src, have, docs);
    WholeBlobSettles(s.codec, s.rule, excluded, s.options, src, have, docs);
    AllGoInIffApart(start, docs);
    ApartOrTolerated(excluded, start, docs);
  }

  /**
   Restoring a whole dump puts exactly the dumped documents, in order, behind what the target's
   collections start with, if and only if no `_id` comes up twice in any of them. The report is
   clean if and only if duplicates are also tolerated wherever one comes up.
   */
  lemma DumpRestoresWhole(s: Setup<Document>, contents: seq<seq<Document>>)
    requires s.Valid() && s.rule == DuplicateId && WholeDump(s.codec, s.sources, contents) && TargetAnswers(s)
    requires AllApart(Starts(s))
    ensures var all := Appended(Starts(s), contents);
            (SequentialTarget(s) == all <==> AllApart(all)) &&
            (CleanReport(Gathered(SequentialResults(s))) <==>
             forall i | 0 <= i < |all| :: IdsApart(all[i]) || s.Tolerance(i)(DUPLICATE_ID))
  {
    hide ItemOutcome, Gathered, Framed, Frames, IdsApart, Answers, For, Unreported, Starts, TargetAnswers;
    var starts, results, target := Starts(s), SequentialResults(s), SequentialTarget(s);
    var all := Appended(starts, contents);
    forall i | 0 <= i < |s.sources|
      ensures target[i] == all[i] <==> IdsApart(all[i])
      ensures Unreported(results[i]) <==> IdsApart(all[i]) || s.Tolerance(i)(DUPLICATE_ID)
    {
      UnreportedIffApart(s, contents, i);
    }
    if CleanReport(Gathered(results)) {
      CleanReportMeansAllRestored(results);
    } else if AllUnreported(results) {
      UnreportedGathers(results);
    }
  }

  /** Documents are lost under a clean report exactly when an `_id` comes up twice and every duplicate is tolerated. */
  lemma SilentLossIff(s: Setup<Document>, contents: seq<seq<Document>>)
    requires s.Valid() && s.rule == DuplicateId && WholeDump(s.codec, s.sources, contents) && TargetAnswers(s)
    requires AllApart(Starts(s))
    ensures var all := Appended(Starts(s), contents);
            CleanReport(Gathered(SequentialResults(s))) && SequentialTarget(s) != all <==>
            !AllApart(all) && forall i | 0 <= i < |all| && !IdsApart(all[i]) :: s.Tolerance(i)(DUPLICATE_ID)
  {
    hide Gathered, IdsApart, Starts, TargetAnswers, For;
    DumpRestoresWhole(s, contents);
  }

  /** A codec that knows a single document. */
  function OneDocument(d: Document): Codec<Document> {
    Codec(e => [5, 0, 0, 0, 0], b => Success(d))
  }

  lemma OneFrame(d: Document)
    ensures Frames(OneDocument(d), [d]) == [5, 0, 0, 0, 0] && Framed(OneDocument(d), d)
  {
  }

  /** An `_id` and another field. */
  function Versioned(id: int, v: string): Document {
    Field("_id", Int32(id), Single("v", Str(v)))
  }

  /** Such an input: restored over an older version, code 11000 excluded, a document stays old under a clean report. */
  lemma OldVersionStays(o: Options, src: ItemSource)
    requires !o.clean && src.ensureError == None && src.indexes == [] && src.recorded == Success(1)
    requires src.blob == Success([5, 0, 0, 0, 0])
    ensures var s := Setup(OneDocument(Versioned(1, "new")), DuplicateId, Exclusions([11000], [], []), o, [src],
                           [[Versioned(1, "old")]]);
            WholeDump(s.codec, s.sources, [[Versioned(1, "new")]]) && CleanReport(Gathered(SequentialResults(s))) &&
            SequentialTarget(s) == [[Versioned(1, "old")]]
  {
    var before, dumped := Versioned(1, "old"), Versioned(1, "new");
    var s := Setup(OneDocument(dumped), DuplicateId, Exclusions([11000], [], []), o, [src], [[before]]);
    OneFrame(dumped);
    ToleratedIffDuplicateIs(s.Tolerance(0));
    WholeBlobRestores(s.codec, DuplicateId, s.Tolerance(0), o, src, [before], [dumped]);
    assert before in [before];
    assert SequentialResults(s)[0] == s.Outcome(0, [before]).1;
    UnreportedGathers(SequentialResults(s));
  }
}
