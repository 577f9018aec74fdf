/**
 Running a dump: the collections are enumerated in source order, dumped one after the other or
 by a pool of workers, and gathered into the table of contents. However the workers are
 scheduled, the outcome is the one of the sequential run.
 */
module DumpRun {
  import opened Wrappers
  import opened WorkerPool
  import opened NameFilter

  /** One collection to dump, with its place in the enumeration. */
  datatype WorkItem = WorkItem(dbIndex: nat, restoreOrder: nat, db: string, coll: string)

  datatype CollectionToc = CollectionToc(name: string, documentCount: nat, indexes: seq<string>, restoreOrder: nat)

  datatype DatabaseToc = DatabaseToc(name: string, collections: seq<CollectionToc>)

  datatype Metadata = Metadata(databases: seq<DatabaseToc>, size: nat)

  /** Bytes written and table-of-contents entry of one collection, or why dumping it failed. */
  type ItemResult = Result<(nat, CollectionToc), string>

  datatype Options = Options(
    tmpDir: Option<string>,
    includeDatabases: seq<string>,
    excludeDatabases: seq<string>,
    includeCollections: seq<string>,
    excludeCollections: seq<string>,
    jobs: nat)

  /** What the source answers: its databases in order, and the collections of each, if they can be listed. */
  datatype Listing = Listing(databases: seq<string>, collections: string -> Result<seq<string>, string>)

  // Enumeration.

  function Keep(names: seq<string>, only: seq<string>, never: seq<string>): seq<string> {
    if names == [] then []
    else (if Included(names[0], only, never) then [names[0]] else []) + Keep(names[1..], only, never)
  }

  lemma {:induction false} KeepAppend(names: seq<string>, name: string, only: seq<string>, never: seq<string>)
    ensures Keep(names + [name], only, never) ==
            Keep(names, only, never) + (if Included(name, only, never) then [name] else [])
  {
    var longer := names + [name];
    if names == [] {
      assert longer == [name] && longer[1..] == [];
    } else {
      assert longer[0] == names[0] && longer[1..] == names[1..] + [name];
      KeepAppend(names[1..], name, only, never);
    }
  }

  /** The databases of a dump, each with its collections, in source order. */
  type Layout = seq<(string, seq<string>)>

  function DbItems(dbIndex: nat, db: string, colls: seq<string>): seq<WorkItem> {
    seq(|colls|, j requires 0 <= j < |colls| => WorkItem(dbIndex, j, db, colls[j]))
  }

  function Items(layout: Layout): seq<WorkItem> {
    if layout == [] then []
    else
      var last := |layout| - 1;
      Items(layout[..last]) + DbItems(last, layout[last].0, layout[last].1)
  }

  function Names(layout: Layout): seq<string> {
    seq(|layout|, d requires 0 <= d < |layout| => layout[d].0)
  }

  /** The layout the options select; the first database that cannot be listed is an error. */
  function LayoutOf(o: Options, src: Listing, dbs: seq<string>): Result<Layout, string> {
    if dbs == [] then Success([])
    else
      var last := |dbs| - 1;
      match LayoutOf(o, src, dbs[..last])
      case Failure(e) => Failure(e)
      case Success(layout) =>
        if !Included(dbs[last], o.includeDatabases, o.excludeDatabases) then Success(layout)
        else
          match src.collections(dbs[last])
          case Failure(e) => Failure(e)
          case Success(colls) =>
            Success(layout + [(dbs[last], Keep(colls, o.includeCollections, o.excludeCollections))])
  }

  lemma ItemsAppend(layout: Layout, db: string, colls: seq<string>)
    ensures Items(layout + [(db, colls)]) == Items(layout) + DbItems(|layout|, db, colls)
  {
    hide DbItems;
    var longer := layout + [(db, colls)];
    assert longer[..|longer| - 1] == layout && longer[|layout|] == (db, colls);
  }

  lemma NamesAppend(layout: Layout, db: string, colls: seq<string>)
    ensures Names(layout + [(db, colls)]) == Names(layout) + [db]
  {
  }

  lemma {:induction false} LayoutFailsEarly(o: Options, src: Listing, dbs: seq<string>, n: nat)
    requires n <= |dbs| && LayoutOf(o, src, dbs[..n]).Failure?
    ensures LayoutOf(o, src, dbs) == LayoutOf(o, src, dbs[..n])
    decreases |dbs| - n
  {
    if n == |dbs| {
      assert dbs[..n] == dbs;
    } else {
      assert dbs[..n + 1][..n] == dbs[..n];
      LayoutFailsEarly(o, src, dbs, n + 1);
    }
  }

  /** The items of one database, numbered in restore order. */
  method EnumerateDb(o: Options, dbIndex: nat, db: string, colls: seq<string>) returns (items: seq<WorkItem>)
    ensures items == DbItems(dbIndex, db, Keep(colls, o.includeCollections, o.excludeCollections))
  {
    items := [];
    var restoreOrder := 0;
    ghost var kept := [];
    for j := 0 to |colls|
      invariant kept == Keep(colls[..j], o.includeCollections, o.excludeCollections) && restoreOrder == |kept|
      invariant items == DbItems(dbIndex, db, kept)
    {
      assert colls[..j + 1] == colls[..j] + [colls[j]];
      KeepAppend(colls[..j], colls[j], o.includeCollections, o.excludeCollections);
      if !Included(colls[j], o.includeCollections, o.excludeCollections) {
        continue;
      }
      kept := kept + [colls[j]];
      items := items + [WorkItem(dbIndex, restoreOrder, db, colls[j])];
      restoreOrder := restoreOrder + 1;
    }
    assert colls[..|colls|] == colls;
  }

  method Enumerate(o: Options, src: Listing) returns (r: Result<(seq<string>, seq<WorkItem>), string>)
    ensures r == match LayoutOf(o, src, src.databases)
                 case Failure(e) => Failure(e)
                 case Success(layout) => Success((Names(layout), Items(layout)))
  {
    hide DbItems, Keep, Items, Names;
    var dbNames: seq<string>, items: seq<WorkItem> := [], [];
    ghost var layout: Layout := [];
    var dbs := src.databases;
    NothingEnumerated();
    for i := 0 to |dbs|
      invariant LayoutOf(o, src, dbs[..i]) == Success(layout)
      invariant dbNames == Names(layout) && items == Items(layout) && |dbNames| == |layout|
    {
      var db := dbs[i];
      assert dbs[..i + 1][..i] == dbs[..i];
      if !Included(db, o.includeDatabases, o.excludeDatabases) {
        continue;
      }
      match src.collections(db) {
        case Failure(e) =>
          LayoutFailsEarly(o, src, dbs, i + 1);
          return Failure(e);
        case Success(colls) =>
          var more := EnumerateDb(o, |dbNames|, db, colls);
          ghost var kept := Keep(colls, o.includeCollections, o.excludeCollections);
          ItemsAppend(layout, db, kept);
          NamesAppend(layout, db, kept);
          layout := layout + [(db, kept)];
          items := items + more;
          dbNames := dbNames + [db];
      }
    }
    assert dbs[..|dbs|] == dbs;
    r := Success((dbNames, items));
  }

  lemma NothingEnumerated()
    ensures Items([]) == [] && Names([]) == []
  {
  }

  // Dumping one collection, seen from outside.

  /** Streaming a collection and reading its structure: documents written, bytes, index names. */
  type Collect = (string, string) -> Result<(nat, nat, seq<string>), string>

  function DumpItem(collect: Collect, item: WorkItem): ItemResult {
    match collect(item.db, item.coll)
    case Failure(e) => Failure(e)
    case Success((count, size, indexes)) => Success((size, CollectionToc(item.coll, count, indexes, item.restoreOrder)))
  }

  // Gathering.

  type Slots = seq<Option<ItemResult>>

  function FirstFailure(slots: Slots): Option<string> {
    if slots == [] then None
    else match slots[0]
      case Some(Failure(e)) => Some(e)
      case _ => FirstFailure(slots[1..])
  }

  function TotalSize(slots: Slots): nat {
    if slots == [] then 0
    else
      var last := |slots| - 1;
      TotalSize(slots[..last]) + match slots[last] case Some(Success((size, _))) => size case _ => 0
  }

  /** The entries of one database, in item order. */
  function Entries(items: seq<WorkItem>, slots: Slots, d: nat): seq<CollectionToc>
    requires |items| == |slots|
  {
    if items == [] then []
    else
      var last := |items| - 1;
      Entries(items[..last], slots[..last], d) +
      match slots[last]
      case Some(Success((_, toc))) => if items[last].dbIndex == d then [toc] else []
      case _ => []
  }

  function Contents(dbNames: seq<string>, items: seq<WorkItem>, slots: Slots): Metadata
    requires |items| == |slots|
  {
    Metadata(seq(|dbNames|, d requires 0 <= d < |dbNames| => DatabaseToc(dbNames[d], Entries(items, slots, d))),
             TotalSize(slots))
  }

  lemma {:induction false} FirstFailurePrefix(slots: Slots, n: nat)
    requires n <= |slots|
    ensures match FirstFailure(slots[..n])
            case Some(e) => FirstFailure(slots) == Some(e)
            case None => FirstFailure(slots) == FirstFailure(slots[n..])
    decreases n
  {
    if n > 0 {
      FirstFailurePrefix(slots[1..], n - 1);
      assert slots[..n][1..] == slots[1..][..n - 1];
      assert slots[n..] == slots[1..][n - 1..];
    }
  }

  lemma SlotFailure(slots: Slots, n: nat)
    requires n < |slots| && FirstFailure(slots[..n]) == None
    ensures match slots[n]
            case Some(Failure(e)) => FirstFailure(slots) == Some(e)
            case _ => FirstFailure(slots[..n + 1]) == None
  {
    FirstFailurePrefix(slots, n);
    FirstFailurePrefix(slots[..n + 1], n);
    assert slots[..n + 1][..n] == slots[..n] && slots[..n + 1][n..] == [slots[n]];
    var one: Slots := [slots[n]];
    assert one[1..] == [];
  }

  /** Walks items and results together; the first failure in item order ends the walk. */
  method Gather(dbNames: seq<string>, items: seq<WorkItem>, slots: Slots) returns (r: Result<Metadata, string>)
    requires |items| == |slots| && forall i <- items :: i.dbIndex < |dbNames|
    ensures r == match FirstFailure(slots)
                 case Some(e) => Failure(e)
                 case None => Success(Contents(dbNames, items, slots))
  {
    var totalSize := 0;
    var byDb: seq<seq<CollectionToc>> := seq(|dbNames|, d => []);
    for i := 0 to |items|
      invariant FirstFailure(slots[..i]) == None && totalSize == TotalSize(slots[..i])
      invariant |byDb| == |dbNames| && forall d | 0 <= d < |dbNames| :: byDb[d] == Entries(items[..i], slots[..i], d)
    {
      SlotFailure(slots, i);
      assert slots[..i + 1][..i] == slots[..i] && items[..i + 1][..i] == items[..i];
      match slots[i] {
        case Some(Success((size, toc))) =>
          var d := items[i].dbIndex;
          assert items[i] in items;
          totalSize := totalSize + size;
          byDb := byDb[d := byDb[d] + [toc]];
        case Some(Failure(e)) => return Failure(e);
        case None =>
      }
    }
    assert slots[..|slots|] == slots && items[..|items|] == items;
    var databases := seq(|dbNames|, d requires 0 <= d < |dbNames| => DatabaseToc(dbNames[d], byDb[d]));
    assert databases == Contents(dbNames, items, slots).databases;
    r := Success(Metadata(databases, totalSize));
  }

  // The run.

  function SequentialSlots(collect: Collect, items: seq<WorkItem>): (slots: Slots)
    ensures |slots| == |items|
  {
    seq(|items|, i requires 0 <= i < |items| => Some(DumpItem(collect, items[i])))
  }

  /** A pool that completed a prefix and left items unclaimed has the sequential run's first failure in that prefix. */
  lemma PrefixFailsAlike<C>(job: Job<C, ItemResult>, collect: Collect, items: seq<WorkItem>, slots: Slots,
                            cells: seq<C>, k: nat)
    requires IsDumpJob(job, collect, items) && CompletedPrefix(job, slots, cells, k)
    ensures FirstFailure(slots) == FirstFailure(SequentialSlots(collect, items))
    ensures FirstFailure(slots) == None ==> slots == SequentialSlots(collect, items)
  {
    var all := SequentialSlots(collect, items);
    assert slots[..k] == all[..k];
    FirstFailurePrefix(slots, k);
    FirstFailurePrefix(all, k);
    if k < |items| {
      var i :| 0 <= i < k && job.halts(job.Outcome(i));
      FailureIsFound(slots[..k], i);
    } else {
      assert slots == all;
    }
  }

  lemma {:induction false} FailureIsFound(slots: Slots, i: nat)
    requires i < |slots| && slots[i].Some? && slots[i].value.Failure?
    ensures FirstFailure(slots).Some?
  {
    if i > 0 {
      FailureIsFound(slots[1..], i - 1);
    }
  }

  /** The work of the pool: dumping the items, halting on the first failure. */
  ghost predicate IsDumpJob<C>(job: Job<C, ItemResult>, collect: Collect, items: seq<WorkItem>) {
    |job.cells| == |items| && (forall i | 0 <= i < |items| :: job.Outcome(i) == DumpItem(collect, items[i])) &&
    (forall r: ItemResult :: job.halts(r) == r.Failure?)
  }

  function DumpJob(collect: Collect, items: seq<WorkItem>): Job<(), ItemResult> {
    Job((i: nat, c: ()) => ((), if i < |items| then DumpItem(collect, items[i]) else Failure("no such item")),
        (r: ItemResult) => r.Failure?,
        seq(|items|, i => ()))
  }

  lemma {:induction false} ItemsAreIndexed(layout: Layout)
    ensures forall i <- Items(layout) :: i.dbIndex < |layout|
  {
    if layout != [] {
      ItemsAreIndexed(layout[..|layout| - 1]);
    }
  }

  /** The outcome of a dump, as the sequential run determines it. */
  function RunOutcome(o: Options, src: Listing, collect: Collect): Result<Metadata, string> {
    if o.tmpDir == None || o.tmpDir == Some("") then Failure("common.tmp_dir must be configured before dumping")
    else
      match LayoutOf(o, src, src.databases)
      case Failure(e) => Failure(e)
      case Success(layout) =>
        var slots := SequentialSlots(collect, Items(layout));
        match FirstFailure(slots)
        case Some(e) => Failure(e)
        case None => Success(Contents(Names(layout), Items(layout), slots))
  }

  /** The dump, sequential or by workers under any schedule, ends with the sequential outcome. */
  method Run(o: Options, src: Listing, collect: Collect) returns (r: Result<Metadata, string>)
    ensures r == RunOutcome(o, src, collect)
  {
    if o.tmpDir == None || o.tmpDir == Some("") {
      return Failure("common.tmp_dir must be configured before dumping");
    }
    var listed := Enumerate(o, src);
    if listed.Failure? {
      return Failure(listed.error);
    }
    var (dbNames, items) := listed.value;
    ItemsAreIndexed(LayoutOf(o, src, src.databases).value);
    var jobs := if o.jobs < 1 then 1 else o.jobs;
    var slots: Slots;
    if jobs <= 1 || |items| <= 1 {
      slots := SequentialSlots(collect, items);
    } else {
      var job := DumpJob(collect, items);
      ghost var k;
      var cells;
      slots, cells, k := RunPool(job, if jobs < |items| then jobs else |items|);
      PrefixFailsAlike(job, collect, items, slots, cells, k);
    }
    r := Gather(dbNames, items, slots);
  }

  // What the table of contents of a successful dump says.

  /** Entries of a database, when every item succeeded: its included collections as collected, numbered in order. */
  ghost predicate EntriesInOrder(collect: Collect, db: string, entries: seq<CollectionToc>, colls: seq<string>) {
    |entries| == |colls| && forall j | 0 <= j < |colls| ::
      collect(db, colls[j]).Success? &&
      var (count, size, indexes) := collect(db, colls[j]).value;
      entries[j] == CollectionToc(colls[j], count, indexes, j)
  }

  lemma {:induction false} EntriesOfConcat(a: seq<WorkItem>, sa: Slots, b: seq<WorkItem>, sb: Slots, d: nat)
    requires |a| == |sa| && |b| == |sb|
    ensures Entries(a + b, sa + sb, d) == Entries(a, sa, d) + Entries(b, sb, d)
    decreases |b|
  {
    if b == [] {
      assert a + b == a && sa + sb == sa;
    } else {
      var last := |b| - 1;
      assert (a + b)[..|a + b| - 1] == a + b[..last] && (sa + sb)[..|a + b| - 1] == sa + sb[..last];
      EntriesOfConcat(a, sa, b[..last], sb[..last], d);
    }
  }

  lemma {:induction false} EntriesOfDb(collect: Collect, dbIndex: nat, db: string, colls: seq<string>, d: nat)
    requires FirstFailure(SequentialSlots(collect, DbItems(dbIndex, db, colls))) == None
    ensures var items := DbItems(dbIndex, db, colls);
            var entries := Entries(items, SequentialSlots(collect, items), d);
            if d == dbIndex then EntriesInOrder(collect, db, entries, colls) else entries == []
    decreases |colls|
  {
    var items := DbItems(dbIndex, db, colls);
    var slots := SequentialSlots(collect, items);
    if colls != [] {
      var last := |colls| - 1;
      var fewer := DbItems(dbIndex, db, colls[..last]);
      assert items[..last] == fewer && slots[..last] == SequentialSlots(collect, fewer);
      FirstFailurePrefix(slots, last);
      EntriesOfDb(collect, dbIndex, db, colls[..last], d);
      if slots[last].value.Failure? {
        FailureIsFound(slots, last);
      }
    }
  }

  lemma SlotsConcat(collect: Collect, a: seq<WorkItem>, b: seq<WorkItem>)
    ensures SequentialSlots(collect, a + b) == SequentialSlots(collect, a) + SequentialSlots(collect, b)
  {
    hide DumpItem;
  }

  lemma {:induction false} EntriesOfLayout(collect: Collect, layout: Layout, d: nat)
    requires FirstFailure(SequentialSlots(collect, Items(layout))) == None
    ensures var entries := Entries(Items(layout), SequentialSlots(collect, Items(layout)), d);
            if d < |layout| then EntriesInOrder(collect, layout[d].0, entries, layout[d].1) else entries == []
    decreases |layout|
  {
    hide DumpItem, FirstFailure, DbItems, SequentialSlots, EntriesInOrder;
    if layout != [] {
      var last := |layout| - 1;
      var a, b := Items(layout[..last]), DbItems(last, layout[last].0, layout[last].1);
      var sa, sb := SequentialSlots(collect, a), SequentialSlots(collect, b);
      SlotsConcat(collect, a, b);
      FirstFailurePrefix(sa + sb, |a|);
      assert (sa + sb)[..|a|] == sa && (sa + sb)[|a|..] == sb;
      EntriesOfLayout(collect, layout[..last], d);
      EntriesOfDb(collect, last, layout[last].0, layout[last].1, d);
      EntriesOfConcat(a, sa, b, sb, d);
      assert Entries(a, sa, d) + [] == Entries(a, sa, d) && [] + Entries(b, sb, d) == Entries(b, sb, d);
    }
  }

  /** A successful dump lists the included databases and collections in source order, each as it was collected. */
  lemma TocIsInSourceOrder(o: Options, src: Listing, collect: Collect)
    requires RunOutcome(o, src, collect).Success?
    ensures var layout := LayoutOf(o, src, src.databases);
            var toc := RunOutcome(o, src, collect).value.databases;
            layout.Success? && |toc| == |layout.value| &&
            forall d | 0 <= d < |toc| ::
              toc[d].name == layout.value[d].0 &&
              EntriesInOrder(collect, toc[d].name, toc[d].collections, layout.value[d].1)
  {
    var layout := LayoutOf(o, src, src.databases).value;
    forall d | 0 <= d < |layout|
      ensures EntriesInOrder(collect, layout[d].0, RunOutcome(o, src, collect).value.databases[d].collections,
                             layout[d].1)
    {
      EntriesOfLayout(collect, layout, d);
    }
  }

  /** The names an include and an exclude list leave, each at its place in the original order. */
  ghost predicate LeftInOrder(names: seq<string>, only: seq<string>, never: seq<string>, left: seq<string>,
                              at: seq<nat>)
  {
    |at| == |left| && (forall i | 0 <= i < |at| :: at[i] < |names| && names[at[i]] == left[i]) &&
    (forall i, j | 0 <= i < j < |at| :: at[i] < at[j]) &&
    (forall k: nat | k < |names| :: k in at <==> names[k] !in never && (only == [] || names[k] in only))
  }

  lemma LeftInOrderStep(names: seq<string>, only: seq<string>, never: seq<string>, left: seq<string>, at: seq<nat>,
                        name: string)
    requires LeftInOrder(names, only, never, left, at)
    ensures if name !in never && (only == [] || name in only) then
              LeftInOrder(names + [name], only, never, left + [name], at + [|names|])
            else LeftInOrder(names + [name], only, never, left, at)
  {
    var longer := names + [name];
    assert forall k | 0 <= k < |names| :: longer[k] == names[k];
    assert |names| !in at;
    assert forall k: nat | k < |longer| :: k in at + [|names|] <==> k in at || k == |names|;
  }

  /** The collections dumped of one database: all that the lists leave, in source order. */
  lemma {:induction false} KeptInOrder(names: seq<string>, only: seq<string>, never: seq<string>) returns (at: seq<nat>)
    ensures LeftInOrder(names, only, never, Keep(names, only, never), at)
    decreases |names|
  {
    hide LeftInOrder, Keep;
    if names == [] {
      at := [];
      NothingLeft(only, never);
    } else {
      var last := |names| - 1;
      var before := KeptInOrder(names[..last], only, never);
      assert names == names[..last] + [names[last]];
      LeftInOrderStep(names[..last], only, never, Keep(names[..last], only, never), before, names[last]);
      KeepAppend(names[..last], names[last], only, never);
      var included := names[last] !in never && (only == [] || names[last] in only);
      at := if included then before + [last] else before;
      assert Keep(names[..last], only, never) + [] == Keep(names[..last], only, never);
    }
  }

  lemma NothingLeft(only: seq<string>, never: seq<string>)
    ensures LeftInOrder([], only, never, Keep([], only, never), [])
  {
  }

  /** The database can be listed, and these are the collections that the lists leave of it, in its order. */
  ghost predicate ListedInOrder(o: Options, src: Listing, db: string, colls: seq<string>) {
    src.collections(db).Success? &&
    exists at :: LeftInOrder(src.collections(db).value, o.includeCollections, o.excludeCollections, colls, at)
  }

  lemma KeptIsListed(o: Options, src: Listing, db: string)
    requires src.collections(db).Success?
    ensures ListedInOrder(o, src, db, Keep(src.collections(db).value, o.includeCollections, o.excludeCollections))
  {
    hide LeftInOrder, Keep;
    var at := KeptInOrder(src.collections(db).value, o.includeCollections, o.excludeCollections);
  }

  /** The databases dumped, and of each its collections: all that the four lists leave, in source order. */
  lemma {:induction false} LayoutInOrder(o: Options, src: Listing, dbs: seq<string>) returns (at: seq<nat>)
    requires LayoutOf(o, src, dbs).Success?
    ensures var layout := LayoutOf(o, src, dbs).value;
            LeftInOrder(dbs, o.includeDatabases, o.excludeDatabases, Names(layout), at) &&
            forall d | 0 <= d < |layout| :: ListedInOrder(o, src, layout[d].0, layout[d].1)
    decreases |dbs|
  {
    hide LeftInOrder, ListedInOrder, Keep, Names;
    if dbs == [] {
      at := [];
      NoDatabases(o, src);
    } else {
      var last := |dbs| - 1;
      var db := dbs[last];
      var layout := LayoutOf(o, src, dbs[..last]).value;
      var before := LayoutInOrder(o, src, dbs[..last]);
      assert dbs == dbs[..last] + [db];
      LeftInOrderStep(dbs[..last], o.includeDatabases, o.excludeDatabases, Names(layout), before, db);
      at := before;
      if db !in o.excludeDatabases && (o.includeDatabases == [] || db in o.includeDatabases) {
        at := before + [last];
        NamesAppend(layout, db, Keep(src.collections(db).value, o.includeCollections, o.excludeCollections));
        KeptIsListed(o, src, db);
      }
    }
  }

  lemma NoDatabases(o: Options, src: Listing)
    ensures LayoutOf(o, src, []) == Success([]) && Names([]) == []
    ensures LeftInOrder([], o.includeDatabases, o.excludeDatabases, [], [])
  {
  }

  /** Sizes add up, item by item. */
  lemma {:induction false} SizesAddUp(a: Slots, b: Slots)
    ensures TotalSize(a + b) == TotalSize(a) + TotalSize(b)
    ensures forall size: nat, toc :: TotalSize([Some(Success((size, toc)))]) == size
    decreases |b|
  {
    if b == [] {
      assert a + b == a;
    } else {
      var last := |b| - 1;
      assert (a + b)[..|a + b| - 1] == a + b[..last];
      SizesAddUp(a, b[..last]);
    }
    forall size: nat, toc
      ensures TotalSize([Some(Success((size, toc)))]) == size
    {
      var one: Slots := [Some(Success((size, toc)))];
      assert one[..0] == [];
    }
  }

  /** What one collection adds to a dump: its own bytes, and an entry with its own name, count, indexes and number. */
  lemma ItemAdds(collect: Collect, item: WorkItem)
    requires collect(item.db, item.coll).Success?
    ensures var (count, size, indexes) := collect(item.db, item.coll).value;
            var slots := SequentialSlots(collect, [item]);
            TotalSize(slots) == size &&
            Entries([item], slots, item.dbIndex) == [CollectionToc(item.coll, count, indexes, item.restoreOrder)]
  {
    var slots := SequentialSlots(collect, [item]);
    assert slots[..0] == [] && [item][..0] == [];
    assert Entries([], [], item.dbIndex) == [] && TotalSize([]) == 0;
  }

  /** A dump succeeds exactly with a directory to spool in, all included databases listed and all collections dumped. */
  lemma SucceedsIff(o: Options, src: Listing, collect: Collect)
    ensures RunOutcome(o, src, collect).Success? <==>
              o.tmpDir.Some? && o.tmpDir.value != "" && LayoutOf(o, src, src.databases).Success? &&
              var layout := LayoutOf(o, src, src.databases).value;
              forall d, c | 0 <= d < |layout| && c in layout[d].1 :: collect(layout[d].0, c).Success?
    ensures RunOutcome(o, src, collect).Success? ==>
              var items := Items(LayoutOf(o, src, src.databases).value);
              RunOutcome(o, src, collect).value.size == TotalSize(SequentialSlots(collect, items))
  {
    hide Items, SequentialSlots, LayoutOf;
    if LayoutOf(o, src, src.databases).Success? {
      CollectedIff(collect, LayoutOf(o, src, src.databases).value);
    }
  }

  lemma {:induction false} CollectedIff(collect: Collect, layout: Layout)
    ensures FirstFailure(SequentialSlots(collect, Items(layout))) == None <==>
              forall d, c | 0 <= d < |layout| && c in layout[d].1 :: collect(layout[d].0, c).Success?
    decreases |layout|
  {
    hide FirstFailure, SequentialSlots, DbItems;
    if layout == [] {
      NoItems(collect);
    } else {
      var last := |layout| - 1;
      var a, b := Items(layout[..last]), DbItems(last, layout[last].0, layout[last].1);
      var sa, sb := SequentialSlots(collect, a), SequentialSlots(collect, b);
      SlotsConcat(collect, a, b);
      FirstFailurePrefix(sa + sb, |a|);
      assert (sa + sb)[..|a|] == sa && (sa + sb)[|a|..] == sb;
      CollectedIff(collect, layout[..last]);
      CollectedInDb(collect, last, layout[last].0, layout[last].1);
      assert forall d | 0 <= d < last :: layout[..last][d] == layout[d];
    }
  }

  lemma NoItems(collect: Collect)
    ensures FirstFailure(SequentialSlots(collect, [])) == None
  {
  }

  lemma CollectedInDb(collect: Collect, dbIndex: nat, db: string, colls: seq<string>)
    ensures FirstFailure(SequentialSlots(collect, DbItems(dbIndex, db, colls))) == None <==>
              forall c <- colls :: collect(db, c).Success?
  {
    hide FirstFailure;
    var slots := SequentialSlots(collect, DbItems(dbIndex, db, colls));
    FirstFailureIsLowest(slots);
    if FirstFailure(slots) == None {
      forall c <- colls
        ensures collect(db, c).Success?
      {
        var j :| 0 <= j < |colls| && colls[j] == c;
        assert slots[j].value.Success?;
      }
    } else {
      var i :| 0 <= i < |slots| && slots[i] == Some(Failure(FirstFailure(slots).value));
      assert colls[i] in colls;
    }
  }

  /** A failed dump reports the first failing collection in enumeration order. */
  lemma {:induction false} FirstFailureIsLowest(slots: Slots)
    ensures match FirstFailure(slots)
            case None => forall i | 0 <= i < |slots| && slots[i].Some? :: slots[i].value.Success?
            case Some(e) => exists i | 0 <= i < |slots| ::
              slots[i] == Some(Failure(e)) && forall j | 0 <= j < i && slots[j].Some? :: slots[j].value.Success?
  {
    if slots != [] {
      var rest := slots[1..];
      FirstFailureIsLowest(rest);
      assert forall i | 1 <= i < |slots| :: slots[i] == rest[i - 1];
      if slots[0].Some? && slots[0].value.Failure? {
        assert slots[0] == Some(Failure(slots[0].value.error));
      } else if FirstFailure(rest).Some? {
        var e := FirstFailure(rest).value;
        var i :| 0 <= i < |rest| && rest[i] == Some(Failure(e)) &&
          forall j | 0 <= j < i && rest[j].Some? :: rest[j].value.Success?;
        assert slots[i + 1] == Some(Failure(e));
      }
    }
  }
}
