/**
 A dump and the restore of it, composed: every collection is dumped as `CollectionDump` does, the
 table of contents lists what was dumped, and the restore reads it back. Whatever the number of
 workers and their schedules, a clean report means that everything selected has arrived.
 */
module DumpAndRestore {
  import opened Wrappers
  import opened Bson
  import opened ByteStrings
  import opened Blob
  import opened Transform
  import opened CollectionDump
  import opened ErrorExclusions
  import BatchInsert
  import DumpPlan
  import DumpRun
  import RestoreItem
  import RestoreRun

  /** What is dumped and how: the source's documents and structures, the plan and the filters. */
  datatype Dumping = Dumping(
    codec: Codec<Document>,
    plan: Option<Plan>,
    filters: DumpPlan.Filters,
    documents: (string, string) -> seq<Document>,
    structure: (string, string) -> Result<(seq<string>, nat), string>)
  {
    /** The documents a collection's blob is made of. */
    function Selected(db: string, coll: string): Result<seq<Document>, string> {
      Emitted(plan, coll, Streamed(filters, coll, documents(db, coll)))
    }

    /** The count and the blob a collection's dump leaves in the storage. */
    function Stored(db: string, coll: string): Result<(nat, Bytes), string> {
      BlobOf(codec, Selected(db, coll))
    }

    /** Documents written, bytes and index names of one collection. */
    function Collected(db: string, coll: string): Result<(nat, nat, seq<string>), string> {
      match Stored(db, coll)
      case Failure(e) => Failure(e)
      case Success((count, blob)) =>
        match structure(db, coll)
        case Failure(e) => Failure(e)
        case Success((indexes, size)) => Success((count, |blob| + size, indexes))
    }

    /** Dumping one collection, as the run over all of them sees it. */
    function Collect(): DumpRun.Collect {
      (db: string, coll: string) => Collected(db, coll)
    }

    /** The codec frames whatever is written. */
    ghost predicate Frames() {
      forall db, coll | Selected(db, coll).Success? :: AllFramed(codec, Selected(db, coll).value)
    }
  }

  /** One collection dumped: its documents, then its structure. */
  method DumpItem(x: Dumping, db: string, coll: string)
    returns (r: Result<(nat, nat, seq<string>), string>, blob: Bytes)
    ensures r == x.Collected(db, coll)
    ensures r.Success? ==> x.Stored(db, coll) == Success((r.value.0, blob))
    ensures r.Success? ==> x.structure(db, coll) == Success((r.value.2, r.value.1 - |blob|))
  {
    hide Emitted, Streamed;
    var data := DumpCollection(x.codec, x.plan, x.filters, coll, x.documents(db, coll));
    match data {
      case Failure(e) => return Failure(e), [];
      case Success((count, bytes)) =>
        blob := bytes;
        match x.structure(db, coll) {
          case Failure(e) => return Failure(e), [];
          case Success((indexes, size)) => r := Success((count, |bytes| + size, indexes));
        }
    }
  }

  /** What the target answers for each collection, and what it holds. */
  datatype Destination = Destination(
    dropError: ((string, string)) -> Option<string>,
    ensureError: ((string, string)) -> Option<string>,
    indexError: ((string, string), string) -> Option<string>,
    existing: ((string, string)) -> seq<Document>)

  /** What a restore reads back of one dumped collection. */
  function SourceOf(x: Dumping, t: Destination, item: (string, string)): RestoreItem.ItemSource {
    var stored, structure := x.Stored(item.0, item.1), x.structure(item.0, item.1);
    RestoreItem.ItemSource(
      item.0 + "." + item.1,
      item.1,
      if stored.Success? then Success(stored.value.0) else Failure(stored.error),
      if stored.Success? then Success(stored.value.1) else Failure(stored.error),
      t.dropError(item),
      t.ensureError(item),
      if structure.Success? then structure.value.0 else [],
      (index: string) => t.indexError(item, index))
  }

  /** The names a dump's metadata lists. */
  function TocOf(meta: DumpRun.Metadata): RestoreRun.Toc {
    seq(|meta.databases|, d requires 0 <= d < |meta.databases| =>
      (meta.databases[d].name, CollectionNames(meta.databases[d].collections)))
  }

  function CollectionNames(entries: seq<DumpRun.CollectionToc>): seq<string> {
    seq(|entries|, j requires 0 <= j < |entries| => entries[j].name)
  }

  ghost predicate AllSelected(x: Dumping, toc: RestoreRun.Toc) {
    forall d <- toc, name <- d.1 :: x.Selected(d.0, name).Success?
  }

  /** A successful dump lists exactly the layout it enumerated, and every collection on it was dumped. */
  lemma ListedIsStored(x: Dumping, o: DumpRun.Options, src: DumpRun.Listing)
    requires DumpRun.RunOutcome(o, src, x.Collect()).Success?
    ensures DumpRun.LayoutOf(o, src, src.databases).Success?
    ensures TocOf(DumpRun.RunOutcome(o, src, x.Collect()).value) == DumpRun.LayoutOf(o, src, src.databases).value
    ensures AllSelected(x, DumpRun.LayoutOf(o, src, src.databases).value)
  {
    hide DumpRun.RunOutcome, DumpRun.LayoutOf, Emitted, Streamed;
    DumpRun.TocIsInSourceOrder(o, src, x.Collect());
    var toc := DumpRun.RunOutcome(o, src, x.Collect()).value.databases;
    var layout := DumpRun.LayoutOf(o, src, src.databases).value;
    forall d | 0 <= d < |layout|
      ensures CollectionNames(toc[d].collections) == layout[d].1
      ensures forall name <- layout[d].1 :: x.Selected(layout[d].0, name).Success?
    {
      assert DumpRun.EntriesInOrder(x.Collect(), toc[d].name, toc[d].collections, layout[d].1);
    }
  }

  /** What the blobs of these collections are made of. */
  function Contributed(x: Dumping, items: seq<(string, string)>): (out: seq<seq<Document>>)
    ensures |out| == |items|
  {
    seq(|items|, i requires 0 <= i < |items| =>
      if x.Selected(items[i].0, items[i].1).Success? then x.Selected(items[i].0, items[i].1).value else [])
  }

  function Collections(x: Dumping, items: seq<(string, string)>): DatabaseContents {
    seq(|items|, i requires 0 <= i < |items| => (items[i].1, x.documents(items[i].0, items[i].1)))
  }

  /** The restore of a dump finds in it what dumping each collection yields. */
  lemma RestoreReadsDump(x: Dumping, t: Destination, toc: RestoreRun.Toc, only: seq<string>, never: seq<string>,
                         exclusions: Exclusions, o: RestoreItem.Options)
    requires x.Frames() && AllSelected(x, toc)
    ensures var items := RestoreRun.Queue(toc, only, never);
            var s := RestoreRun.SetupFor(x.codec, BatchInsert.DuplicateId, exclusions, o, items,
                                         item => SourceOf(x, t, item), t.existing);
            DumpOf(x.codec, x.plan, x.filters, Collections(x, items), s.sources, Contributed(x, items))
  {
    hide Emitted, Streamed, AllFramed, Blob.Frames, RestoreRun.Queue;
    var items := RestoreRun.Queue(toc, only, never);
    forall i | 0 <= i < |items|
      ensures x.Selected(items[i].0, items[i].1).Success?
    {
      RestoreRun.QueuedExactly(toc, only, never, items[i]);
    }
  }

  /**
   With `clean`, a report without failed collections means that the target holds what was selected, in
   order, if and only if no two of the written ids of a collection are equal; by default, where no
   error is excluded, it always does.
   */
  lemma CleanReportMeans(x: Dumping, t: Destination, toc: RestoreRun.Toc, only: seq<string>, never: seq<string>,
                         exclusions: Exclusions, o: RestoreItem.Options, s: RestoreRun.Setup<Document>)
    requires x.Frames() && AllSelected(x, toc) && o.clean
    requires s == RestoreRun.SetupFor(x.codec, BatchInsert.DuplicateId, exclusions, o,
                                      RestoreRun.Queue(toc, only, never), item => SourceOf(x, t, item), t.existing)
    requires RestoreRun.CleanReport(RestoreRun.Gathered(RestoreRun.SequentialResults(s)))
    ensures var out := Contributed(x, RestoreRun.Queue(toc, only, never));
            (RestoreRun.SequentialTarget(s) == out <==> RestoreRun.AllApart(out)) &&
            (exclusions == NO_EXCLUSIONS ==> RestoreRun.SequentialTarget(s) == out)
  {
    hide DumpOf, RestoreRun.TargetAnswers, RestoreRun.Gathered, RestoreRun.CleanReport, BatchInsert.IdsApart;
    hide Contributed, Collections, SourceOf, AllSelected;
    var items := RestoreRun.Queue(toc, only, never);
    var out, db := Contributed(x, items), Collections(x, items);
    RestoreReadsDump(x, t, toc, only, never, exclusions, o);
    RestoreRun.CleanReportAnswers(s);
    RestoredAsDumped(s, x.plan, x.filters, db, out);
    if exclusions == NO_EXCLUSIONS {
      DefaultReportIsHonest(s, x.plan, x.filters, db, out);
    }
  }

  /** What a dump and a clean restore of it promise about the target. */
  ghost predicate Arrived(x: Dumping, layout: RestoreRun.Toc, only: seq<string>, never: seq<string>,
                          exclusions: Exclusions, target: seq<seq<Document>>)
  {
    var out := Contributed(x, RestoreRun.Queue(layout, only, never));
    AllSelected(x, layout) && (target == out <==> RestoreRun.AllApart(out)) &&
    (exclusions == NO_EXCLUSIONS ==> target == out)
  }

  /**
   A dump and the restore of it, each by any number of workers under any schedule: when both are Ok
   and no collection is on the failed list, what was selected of the enumerated collections has
   arrived, unless duplicates are excluded and ids collide.
   */
  method DumpThenRestore(x: Dumping, o: DumpRun.Options, src: DumpRun.Listing, t: Destination, only: seq<string>,
                         never: seq<string>, exclusions: Exclusions, ro: RestoreItem.Options, preData: Option<string>,
                         postData: Option<string>)
    returns (dumped: Result<DumpRun.Metadata, string>, restored: Result<RestoreRun.Report, string>,
             target: seq<seq<Document>>)
    requires x.Frames()
    ensures dumped == DumpRun.RunOutcome(o, src, x.Collect())
    ensures dumped.Failure? ==> restored == Failure(dumped.error)
    ensures restored.Success? && restored.value.failed == [] && ro.clean ==>
              var layout := DumpRun.LayoutOf(o, src, src.databases);
              layout.Success? && Arrived(x, layout.value, only, never, exclusions, target)
  {
    dumped := DumpRun.Run(o, src, x.Collect());
    if dumped.Failure? {
      return dumped, Failure(dumped.error), [];
    }
    ListedIsStored(x, o, src);
    var toc := TocOf(dumped.value);
    ghost var s;
    restored, target, s := RestoreRun.RestoreDump(toc, only, never, x.codec, BatchInsert.DuplicateId, exclusions, ro,
                                                  item => SourceOf(x, t, item), t.existing, preData, postData);
    if restored.Success? && restored.value.failed == [] && ro.clean {
      CleanReportMeans(x, t, toc, only, never, exclusions, ro, s);
    }
  }
}
