/**
 Restoring one collection: its blob is read in batches and inserted, and the number of documents
 read is held against the number recorded when the dump was written. A truncated blob cannot
 pass for a whole one.
 */
module RestoreItem {
  import opened Wrappers
  import opened ByteStrings
  import opened Bson
  import opened Blob
  import opened BatchInsert
  import opened ErrorExclusions
  import opened NameFilter

  datatype Options = Options(
    clean: bool,
    ordered: bool,
    batchSize: nat,
    dependencyOrder: bool,
    exitOnError: bool,
    includeIndexes: seq<string>,
    excludeIndexes: seq<string>,
    jobs: nat)

  datatype DataError = Unreadable | Refused(error: InsertError) | Incomplete(recorded: nat, read: nat)

  /** What became of a collection's documents; `read` counts those of whole batches pulled off the blob. */
  datatype Inserted<D> = Inserted(have: seq<D>, inserted: nat, skipped: nat, read: nat, error: Option<DataError>)

  /** Batch after batch is settled; an intolerable failure or an unreadable batch ends it. */
  function InsertBatches<D>(rule: Rule<D>, excluded: InsertError -> bool, ordered: bool, have: seq<D>,
                            batches: seq<seq<D>>, readable: bool): Inserted<D>
    decreases |batches|
  {
    if batches == [] then Inserted(have, 0, 0, 0, if readable then None else Some(Unreadable))
    else
      var s := Settle(rule, excluded, ordered, have, batches[0]);
      match s.error
      case Some(e) => Inserted(s.have, s.inserted, s.skipped, |batches[0]|, Some(Refused(e)))
      case None =>
        Onto(s.inserted, s.skipped, |batches[0]|,
             InsertBatches(rule, excluded, ordered, s.have, batches[1..], readable))
  }

  function Onto<D>(inserted: nat, skipped: nat, read: nat, r: Inserted<D>): Inserted<D> {
    r.(inserted := inserted + r.inserted, skipped := skipped + r.skipped, read := read + r.read)
  }

  function InsertBlob<D>(codec: Codec<D>, rule: Rule<D>, excluded: InsertError -> bool, o: Options, have: seq<D>,
                         data: Bytes): Inserted<D> {
    var (batches, readable) := Batches(codec, data, AtLeastOne(o.batchSize));
    InsertBatches(rule, excluded, o.ordered, have, batches, readable)
  }

  lemma InsertStep<D>(codec: Codec<D>, rule: Rule<D>, excluded: InsertError -> bool, o: Options, have: seq<D>,
                      data: Bytes)
    ensures var whole := InsertBlob(codec, rule, excluded, o, have, data);
            match BatchOf(codec, data, AtLeastOne(o.batchSize))
            case Failure(_) => whole == Inserted(have, 0, 0, 0, Some(Unreadable))
            case Success((docs, rest)) =>
              if docs == [] then whole == Inserted(have, 0, 0, 0, None)
              else
                var s := Settle(rule, excluded, o.ordered, have, docs);
                match s.error
                case Some(e) => whole == Inserted(s.have, s.inserted, s.skipped, |docs|, Some(Refused(e)))
                case None => whole == Onto(s.inserted, s.skipped, |docs|,
                                           InsertBlob(codec, rule, excluded, o, s.have, rest))
  {
    hide BatchOf, Settle;
    match BatchOf(codec, data, AtLeastOne(o.batchSize))
    case Failure(_) =>
    case Success((docs, rest)) =>
      if docs != [] {
        BatchProgress(codec, data, AtLeastOne(o.batchSize));
        var more := Batches(codec, rest, AtLeastOne(o.batchSize)).0;
        assert ([docs] + more)[1..] == more;
      }
  }

  /** Streams the blob out of the dump and inserts it, `batchSize` documents at a time. */
  method InsertDocuments<D>(reader: DocumentReader<D>, coll: Collection<D>, o: Options, excluded: InsertError -> bool)
    returns (inserted: nat, skipped: nat, read: nat, error: Option<DataError>)
    modifies reader.inner, coll
    ensures Inserted(coll.documents, inserted, skipped, read, error) ==
            InsertBlob(reader.codec, coll.rule, excluded, o, old(coll.documents), old(reader.inner.rest))
  {
    hide InsertBlob, BatchOf, Settle;
    inserted, skipped, read := 0, 0, 0;
    while true
      invariant InsertBlob(reader.codec, coll.rule, excluded, o, old(coll.documents), old(reader.inner.rest)) ==
        Onto(inserted, skipped, read, InsertBlob(reader.codec, coll.rule, excluded, o, coll.documents,
                                                 reader.inner.rest))
      decreases |reader.inner.rest|
    {
      ghost var data := reader.inner.rest;
      InsertStep(reader.codec, coll.rule, excluded, o, coll.documents, data);
      BatchProgress(reader.codec, data, AtLeastOne(o.batchSize));
      var next := reader.NextBatch(o.batchSize);
      match next {
        case Failure(_) => return inserted, skipped, read, Some(Unreadable);
        case Success(batch) =>
          if batch == [] {
            return inserted, skipped, read, None;
          }
          read := read + |batch|;
          var refused;
          ghost var before := coll.documents;
          inserted, skipped, refused := InsertBatch(coll, batch, o.ordered, excluded, inserted, skipped);
          if refused.Some? {
            return inserted, skipped, read, Some(Refused(refused.value));
          }
      }
    }
  }

  // One collection end to end.

  /**
   What the dump and the target say about one collection: metadata, blob, recorded indexes, and the
   answers of the target.
   */
  datatype ItemSource = ItemSource(
    name: string,
    collection: string,
    recorded: Result<nat, string>,
    blob: Result<Bytes, string>,
    dropError: Option<string>,
    ensureError: Option<string>,
    indexes: seq<string>,
    indexError: string -> Option<string>)

  datatype ItemResult = ItemResult(
    inserted: nat,
    skipped: nat,
    indexesCreated: nat,
    failed: Option<string>,
    fatal: Option<string>)

  const NOTHING := ItemResult(0, 0, 0, None, None)

  function Describe(e: DataError): string {
    match e
    case Unreadable => "corrupt dump"
    case Refused(_) => "insert failed"
    case Incomplete(_, _) => "incomplete: the data blob is truncated or corrupt"
  }

  /** Fewer documents than recorded is an error; a dump that recorded no count still restores. */
  function Checked<D>(r: Inserted<D>, recorded: nat): Option<DataError> {
    if r.error.Some? then r.error
    else if r.read < recorded then Some(Incomplete(recorded, r.read))
    else None
  }

  /** The indexes a restore creates: the automatic one on `_id` and those filtered out are passed over. */
  predicate Wanted(o: Options, index: string) {
    index != "_id_" && Included(index, o.includeIndexes, o.excludeIndexes)
  }

  function Wants(o: Options, indexes: seq<string>): seq<string> {
    if indexes == [] then [] else (if Wanted(o, indexes[0]) then [indexes[0]] else []) + Wants(o, indexes[1..])
  }

  /** The indexes wanted are those recorded but `_id_`, as far as the lists leave them, in order. */
  lemma {:induction false} WantsMeans(o: Options, a: seq<string>, b: seq<string>, index: string)
    ensures Wants(o, a + b) == Wants(o, a) + Wants(o, b)
    ensures Wants(o, [index]) ==
            if index != "_id_" && index !in o.excludeIndexes && (o.includeIndexes == [] || index in o.includeIndexes)
            then [index] else []
  {
    assert [index][1..] == [] && Wants(o, []) == [];
    if a == [] {
      assert a + b == b;
    } else {
      assert (a + b)[1..] == a[1..] + b;
      WantsMeans(o, a[1..], b, index);
    }
  }

  /** Creating indexes one after the other; the first that cannot be created is the error. */
  function Created(o: Options, src: ItemSource, indexes: seq<string>): Result<nat, string> {
    if indexes == [] then Success(0)
    else
      var last := |indexes| - 1;
      match Created(o, src, indexes[..last])
      case Failure(e) => Failure(e)
      case Success(n) =>
        if !Wanted(o, indexes[last]) then Success(n)
        else match src.indexError(indexes[last])
          case Some(e) => Failure(e)
          case None => Success(n + 1)
  }

  lemma {:induction false} CreationFailsEarly(o: Options, src: ItemSource, indexes: seq<string>, n: nat)
    requires n <= |indexes| && Created(o, src, indexes[..n]).Failure?
    ensures Created(o, src, indexes) == Created(o, src, indexes[..n])
    decreases |indexes| - n
  {
    if n == |indexes| {
      assert indexes[..n] == indexes;
    } else {
      assert indexes[..n + 1][..n] == indexes[..n];
      CreationFailsEarly(o, src, indexes, n + 1);
    }
  }

  method CreateIndexes(o: Options, src: ItemSource) returns (r: Result<nat, string>)
    ensures r == Created(o, src, src.indexes)
  {
    var created := 0;
    for i := 0 to |src.indexes|
      invariant Created(o, src, src.indexes[..i]) == Success(created)
    {
      var index := src.indexes[i];
      assert src.indexes[..i + 1][..i] == src.indexes[..i];
      if index == "_id_" {
        continue;
      }
      if Included(index, o.includeIndexes, o.excludeIndexes) {
        match src.indexError(index) {
          case Some(e) =>
            CreationFailsEarly(o, src, src.indexes, i + 1);
            return Failure(e);
          case None => created := created + 1;
        }
      }
    }
    assert src.indexes[..|src.indexes|] == src.indexes;
    r := Success(created);
  }

  lemma {:induction false} WantsAppend(o: Options, indexes: seq<string>, index: string)
    ensures Wants(o, indexes + [index]) == Wants(o, indexes) + if Wanted(o, index) then [index] else []
  {
    var longer := indexes + [index];
    if indexes == [] {
      assert longer == [index] && longer[1..] == [];
    } else {
      assert longer[0] == indexes[0] && longer[1..] == indexes[1..] + [index];
      WantsAppend(o, indexes[1..], index);
    }
  }

  /** Either every wanted index can be created, and they are counted, or the error is that of the first that cannot. */
  lemma {:induction false} CreatedMeans(o: Options, src: ItemSource, indexes: seq<string>)
    ensures var wanted := Wants(o, indexes);
            match Created(o, src, indexes)
            case Success(n) => n == |wanted| && forall i | 0 <= i < |wanted| :: src.indexError(wanted[i]) == None
            case Failure(e) => exists i | 0 <= i < |wanted| ::
              src.indexError(wanted[i]) == Some(e) && forall j | 0 <= j < i :: src.indexError(wanted[j]) == None
    decreases |indexes|
  {
    if indexes != [] {
      var last := |indexes| - 1;
      var before, index := indexes[..last], indexes[last];
      assert indexes == before + [index];
      WantsAppend(o, before, index);
      CreatedMeans(o, src, before);
      var wanted := Wants(o, indexes);
      assert forall i | 0 <= i < |Wants(o, before)| :: wanted[i] == Wants(o, before)[i];
      if Created(o, src, before).Success? && Created(o, src, indexes).Failure? {
        assert wanted[|wanted| - 1] == index;
      }
    }
  }

  function Concluded(o: Options, src: ItemSource, error: Option<DataError>, r: ItemResult): ItemResult {
    match error
    case Some(e) => if o.exitOnError then r.(fatal := Some(Describe(e))) else r.(failed := Some(src.name))
    case None =>
      if o.dependencyOrder then r
      else match Created(o, src, src.indexes)
        case Success(n) => r.(indexesCreated := n)
        case Failure(e) => r.(fatal := Some(e))
  }

  /** The collection afterwards and the result, by cases on everything that can go wrong. */
  function ItemOutcome<D>(codec: Codec<D>, rule: Rule<D>, excluded: InsertError -> bool, o: Options, src: ItemSource,
                          have: seq<D>):
    (seq<D>, ItemResult)
  {
    if src.recorded.Failure? then (have, NOTHING.(fatal := Some(src.recorded.error)))
    else if o.clean && src.dropError.Some? then (have, NOTHING.(fatal := src.dropError))
    else
      var start := if o.clean then [] else have;
      if src.ensureError.Some? then (start, NOTHING.(fatal := src.ensureError))
      else
        match src.blob
        case Failure(_) => (start, Concluded(o, src, Some(Unreadable), NOTHING))
        case Success(data) =>
          var r := InsertBlob(codec, rule, excluded, o, start, data);
          (r.have, Concluded(o, src, Checked(r, src.recorded.value), ItemResult(r.inserted, r.skipped, 0, None, None)))
  }

  method RestoreCollection<D>(codec: Codec<D>, coll: Collection<D>, excluded: InsertError -> bool, o: Options,
                              src: ItemSource)
    returns (result: ItemResult)
    modifies coll
    ensures (coll.documents, result) == ItemOutcome(codec, coll.rule, excluded, o, src, old(coll.documents))
  {
    hide InsertBlob;
    result := NOTHING;
    if src.recorded.Failure? {
      return result.(fatal := Some(src.recorded.error));
    }
    if o.clean {
      if src.dropError.Some? {
        return result.(fatal := src.dropError);
      }
      coll.documents := [];
    }
    if src.ensureError.Some? {
      return result.(fatal := src.ensureError);
    }
    var error: Option<DataError>;
    match src.blob {
      case Failure(_) => error := Some(Unreadable);
      case Success(data) =>
        var inner := new ByteStream(data);
        var reader := new DocumentReader(codec, inner);
        var inserted, skipped, read;
        inserted, skipped, read, error := InsertDocuments(reader, coll, o, excluded);
        result := result.(inserted := inserted, skipped := skipped);
        if error == None && read < src.recorded.value {
          error := Some(Incomplete(src.recorded.value, read));
        }
    }
    match error {
      case Some(e) =>
        if o.exitOnError {
          return result.(fatal := Some(Describe(e)));
        }
        return result.(failed := Some(src.name));
      case None =>
    }
    if !o.dependencyOrder {
      var created := CreateIndexes(o, src);
      match created {
        case Success(n) => result := result.(indexesCreated := n);
        case Failure(e) => result := result.(fatal := Some(e));
      }
    }
  }

  // What a restore guarantees.

  predicate Unreported(r: ItemResult) {
    r.failed == None && r.fatal == None
  }

  /** What the collection holds when its documents start to arrive. */
  function StartOf<D>(o: Options, have: seq<D>): seq<D> {
    if o.clean then [] else have
  }

  /**
   For any refusals and tolerances, in both write modes and however the documents are batched, the
   batches settle as their documents one at a time: the same error or none, the same number of
   tolerated failures and, without an error, the same collection.
   */
  lemma {:induction false} BatchesSettle<D>(rule: Rule<D>, excluded: InsertError -> bool, ordered: bool, have: seq<D>,
                                            batches: seq<seq<D>>, readable: bool)
    ensures var r := InsertBatches(rule, excluded, ordered, have, batches, readable);
            var s := SettleInOrder(rule, excluded, have, Flatten(batches));
            r.skipped == s.skipped && s.have <= r.have && s.inserted <= r.inserted &&
            match s.error
            case Some(e) => r.error == Some(Refused(e)) && (ordered ==> r.have == s.have && r.inserted == s.inserted)
            case None =>
              r == Inserted(s.have, s.inserted, s.skipped, |Flatten(batches)|,
                            if readable then None else Some(Unreadable))
    decreases |batches|
  {
    hide Settle, SettleInOrder;
    if batches == [] {
      SettleNothing(rule, excluded, have);
    } else {
      var first, later := batches[0], Flatten(batches[1..]);
      ModesAgree(rule, excluded, ordered, have, first);
      SettleConcat(rule, excluded, have, first, later);
      OrderedIsInOrder(rule, excluded, have, first);
      var s := Settle(rule, excluded, ordered, have, first);
      if s.error == None {
        BatchesSettle(rule, excluded, ordered, s.have, batches[1..], readable);
      }
    }
  }

  lemma OrderedIsInOrder<D>(rule: Rule<D>, excluded: InsertError -> bool, have: seq<D>, docs: seq<D>)
    ensures Settle(rule, excluded, true, have, docs) == SettleInOrder(rule, excluded, have, docs)
  {
  }

  /** Whatever is tolerated, no more documents are counted than the blob holds whole. */
  lemma {:induction false} ReadIsBounded<D>(rule: Rule<D>, excluded: InsertError -> bool, ordered: bool, have: seq<D>,
                                            batches: seq<seq<D>>, readable: bool)
    ensures InsertBatches(rule, excluded, ordered, have, batches, readable).read <= |Flatten(batches)|
    decreases |batches|
  {
    hide Settle;
    if batches != [] {
      var s := Settle(rule, excluded, ordered, have, batches[0]);
      ReadIsBounded(rule, excluded, ordered, s.have, batches[1..], readable);
    }
  }

  /** A blob cut anywhere short of its end is reported, whatever is tolerated and however it is batched. */
  lemma TruncationIsReported<D(!new)>(codec: Codec<D>, rule: Rule<D>, excluded: InsertError -> bool, o: Options,
                                      src: ItemSource, have: seq<D>, docs: seq<D>, cut: nat)
    requires AllFramed(codec, docs) && cut < |Frames(codec, docs)|
    requires src.recorded == Success(|docs|) && src.blob == Success(Frames(codec, docs)[..cut])
    ensures !Unreported(ItemOutcome(codec, rule, excluded, o, src, have).1)
  {
    hide InsertBatches, Batches, ReadAll, Frames, AllFramed;
    var data := Frames(codec, docs)[..cut];
    TruncationIsShort(codec, docs, cut);
    BatchesCover(codec, data, AtLeastOne(o.batchSize));
    var (batches, readable) := Batches(codec, data, AtLeastOne(o.batchSize));
    ReadIsBounded(rule, excluded, o.ordered, StartOf(o, have), batches, readable);
  }

  /** Nothing goes wrong beside the documents: metadata, target and indexes answer. */
  predicate Answers(o: Options, src: ItemSource) {
    src.recorded.Success? && (o.clean ==> src.dropError == None) && src.ensureError == None &&
    (o.dependencyOrder || Created(o, src, src.indexes).Success?)
  }

  /**
   Exactly when a blob cut at any byte goes unreported: nothing goes wrong beside the documents, the
   cut falls on a frame boundary, no fewer documents are whole than were recorded (none, for a dump
   that recorded no count), and none of them meets an error that is not tolerated. The collection
   then holds what inserting them one at a time, tolerated failures aside, leaves.
   */
  lemma UnreportedIff<D(!new)>(codec: Codec<D>, rule: Rule<D>, excluded: InsertError -> bool, o: Options,
                               src: ItemSource, have: seq<D>, docs: seq<D>, cut: nat)
    requires AllFramed(codec, docs) && cut <= |Frames(codec, docs)| && src.blob == Success(Frames(codec, docs)[..cut])
    ensures var k := WholeFrames(codec, docs, cut);
            var (after, r) := ItemOutcome(codec, rule, excluded, o, src, have);
            var s := SettleInOrder(rule, excluded, StartOf(o, have), docs[..k]);
            (Unreported(r) <==>
             Answers(o, src) &&
             |Frames(codec, docs[..k])| == cut && k >= src.recorded.value && s.error == None) &&
            (Unreported(r) ==> after == s.have && r.inserted == s.inserted && r.skipped == s.skipped)
  {
    hide InsertBatches, SettleInOrder, Batches, ReadAll, Frames, AllFramed, Created;
    var data := Frames(codec, docs)[..cut];
    CutBlob(codec, docs, cut);
    BatchesCover(codec, data, AtLeastOne(o.batchSize));
    var (batches, readable) := Batches(codec, data, AtLeastOne(o.batchSize));
    BatchesSettle(rule, excluded, o.ordered, StartOf(o, have), batches, readable);
  }

  /**
   A whole blob is settled as its documents one at a time, for every tolerance, batch size and write
   mode: reported exactly when one of them meets an intolerable error, and otherwise complete.
   */
  lemma WholeBlobSettles<D(!new)>(codec: Codec<D>, rule: Rule<D>, excluded: InsertError -> bool, o: Options,
                                  src: ItemSource, have: seq<D>, docs: seq<D>)
    requires Answers(o, src) && AllFramed(codec, docs)
    requires src.blob == Success(Frames(codec, docs)) && src.recorded.value <= |docs|
    ensures var (after, r) := ItemOutcome(codec, rule, excluded, o, src, have);
            var s := SettleInOrder(rule, excluded, StartOf(o, have), docs);
            (Unreported(r) <==> s.error == None) && s.have <= after && r.skipped == s.skipped &&
            (o.ordered || s.error == None ==> after == s.have && r.inserted == s.inserted)
  {
    hide InsertBatches, SettleInOrder, Batches, ReadAll, Frames, AllFramed, Created;
    BlobReadsBack(codec, docs);
    BatchesCover(codec, Frames(codec, docs), AtLeastOne(o.batchSize));
    var (batches, readable) := Batches(codec, Frames(codec, docs), AtLeastOne(o.batchSize));
    BatchesSettle(rule, excluded, o.ordered, StartOf(o, have), batches, readable);
  }

  /**
   How a failing document is reported: with `exit_on_error` as a fatal error that ends the restore,
   otherwise by the name of the collection, and the restore goes on. Its indexes are not created.
   */
  lemma FailureIsReported<D(!new)>(codec: Codec<D>, rule: Rule<D>, excluded: InsertError -> bool, o: Options,
                                   src: ItemSource, have: seq<D>, docs: seq<D>)
    requires Answers(o, src) && AllFramed(codec, docs) && src.blob == Success(Frames(codec, docs))
    requires SettleInOrder(rule, excluded, StartOf(o, have), docs).error.Some?
    ensures var r := ItemOutcome(codec, rule, excluded, o, src, have).1;
            r.indexesCreated == 0 &&
            if o.exitOnError then r.fatal.Some? && r.failed == None else r.failed == Some(src.name) && r.fatal == None
  {
    hide InsertBatches, SettleInOrder, Batches, ReadAll, Frames, AllFramed, Created;
    BlobReadsBack(codec, docs);
    BatchesCover(codec, Frames(codec, docs), AtLeastOne(o.batchSize));
    var (batches, readable) := Batches(codec, Frames(codec, docs), AtLeastOne(o.batchSize));
    BatchesSettle(rule, excluded, o.ordered, StartOf(o, have), batches, readable);
  }

  /**
   Once its documents are in, a collection's indexes are created, unless they are left for the end; an
   index that cannot be created is fatal, whether or not errors end the restore.
   */
  lemma IndexesFollowDocuments<D(!new)>(codec: Codec<D>, rule: Rule<D>, excluded: InsertError -> bool, o: Options,
                                        src: ItemSource, have: seq<D>, docs: seq<D>)
    requires src.recorded.Success? && (o.clean ==> src.dropError == None) && src.ensureError == None
    requires AllFramed(codec, docs) && src.blob == Success(Frames(codec, docs)) && src.recorded.value <= |docs|
    requires SettleInOrder(rule, excluded, StartOf(o, have), docs).error == None
    ensures var r := ItemOutcome(codec, rule, excluded, o, src, have).1;
            var s := SettleInOrder(rule, excluded, StartOf(o, have), docs);
            var created := Created(o, src, src.indexes);
            r.inserted == s.inserted && r.skipped == s.skipped && r.failed == None &&
            r.fatal == (if !o.dependencyOrder && created.Failure? then Some(created.error) else None) &&
            r.indexesCreated == if !o.dependencyOrder && created.Success? then created.value else 0
  {
    hide InsertBatches, SettleInOrder, Batches, ReadAll, Frames, AllFramed, Created;
    BlobReadsBack(codec, docs);
    BatchesCover(codec, Frames(codec, docs), AtLeastOne(o.batchSize));
    var (batches, readable) := Batches(codec, Frames(codec, docs), AtLeastOne(o.batchSize));
    BatchesSettle(rule, excluded, o.ordered, StartOf(o, have), batches, readable);
  }

  /** What ends the restore of a collection before its documents are touched is fatal, and why. */
  lemma EarlyErrorsAreFatal<D>(codec: Codec<D>, rule: Rule<D>, excluded: InsertError -> bool, o: Options,
                               src: ItemSource, have: seq<D>)
    ensures var (after, r) := ItemOutcome(codec, rule, excluded, o, src, have);
            (src.recorded.Failure? ==> after == have && r.fatal == Some(src.recorded.error)) &&
            (src.recorded.Success? && o.clean && src.dropError.Some? ==> after == have && r.fatal == src.dropError) &&
            (src.recorded.Success? && (o.clean ==> src.dropError == None) && src.ensureError.Some? ==>
               after == (if o.clean then [] else have) && r.fatal == src.ensureError)
  {
    hide InsertBlob, Created;
  }

  /** With failures tolerated, a whole blob leaves what inserting each document unless it is refused leaves. */
  lemma WholeBlobRestores<D(!new)>(codec: Codec<D>, rule: Rule<D>, excluded: InsertError -> bool, o: Options,
                                   src: ItemSource, have: seq<D>, docs: seq<D>)
    requires AllTolerated(rule, excluded) && Answers(o, src) && AllFramed(codec, docs)
    requires src.blob == Success(Frames(codec, docs)) && src.recorded.value <= |docs|
    ensures var (after, r) := ItemOutcome(codec, rule, excluded, o, src, have);
            after == OneByOne(rule, StartOf(o, have), docs) && Unreported(r) && r.inserted + r.skipped == |docs|
  {
    hide ItemOutcome, SettleInOrder, Frames, AllFramed, AllTolerated, Answers;
    WholeBlobSettles(codec, rule, excluded, o, src, have, docs);
    ToleratedInOrder(rule, excluded, StartOf(o, have), docs);
  }

  /** Batches put all their documents in exactly when none of them is refused, whatever is tolerated. */
  lemma {:induction false} BatchesGoInIff<D>(rule: Rule<D>, excluded: InsertError -> bool, ordered: bool, have: seq<D>,
                                             batches: seq<seq<D>>)
    ensures var r, docs := InsertBatches(rule, excluded, ordered, have, batches, true), Flatten(batches);
            |r.have| == |have| + r.inserted && r.inserted <= |docs| &&
            if AllGoIn(rule, have, docs) then r == Inserted(have + docs, |docs|, 0, |docs|, None)
            else r.inserted < |docs|
    decreases |batches|
  {
    hide Settle, AllGoIn;
    if batches == [] {
      assert have + Flatten(batches) == have;
      NothingGoesIn(rule, have);
    } else {
      var first, later := batches[0], Flatten(batches[1..]);
      SettlesAllIff(rule, excluded, ordered, have, first);
      AllGoInConcat(rule, have, first, later);
      var s := Settle(rule, excluded, ordered, have, first);
      BatchesGoInIff(rule, excluded, ordered, s.have, batches[1..]);
      assert (have + first) + later == have + Flatten(batches);
    }
  }

  lemma NothingGoesIn<D>(rule: Rule<D>, have: seq<D>)
    ensures AllGoIn(rule, have, [])
  {
  }

  /**
   A whole blob puts exactly its documents behind what the collection starts with if and only if
   none of them is refused, whatever is tolerated, for every batch size and both write modes; the
   restore then reports nothing and skips nothing.
   */
  lemma WholeBlobGoesInIff<D(!new)>(codec: Codec<D>, rule: Rule<D>, excluded: InsertError -> bool, o: Options,
                                    src: ItemSource, have: seq<D>, docs: seq<D>)
    requires Answers(o, src) && AllFramed(codec, docs)
    requires src.blob == Success(Frames(codec, docs)) && src.recorded.value <= |docs|
    ensures var (after, r) := ItemOutcome(codec, rule, excluded, o, src, have);
            var start := StartOf(o, have);
            (after == start + docs <==> AllGoIn(rule, start, docs)) && |after| == |start| + r.inserted &&
            (AllGoIn(rule, start, docs) ==> Unreported(r) && r.inserted == |docs| && r.skipped == 0)
  {
    hide InsertBatches, Batches, ReadAll, Frames, AllFramed, AllGoIn, Created;
    var start := StartOf(o, have);
    BlobReadsBack(codec, docs);
    BatchesCover(codec, Frames(codec, docs), AtLeastOne(o.batchSize));
    var (batches, readable) := Batches(codec, Frames(codec, docs), AtLeastOne(o.batchSize));
    BatchesGoInIff(rule, excluded, o.ordered, start, batches);
  }

  /** A whole blob restored with nothing tolerated goes unreported exactly when no document is refused. */
  lemma IntolerantReport<D(!new)>(codec: Codec<D>, rule: Rule<D>, excluded: InsertError -> bool, o: Options,
                                  src: ItemSource, have: seq<D>, docs: seq<D>)
    requires NoneTolerated(rule, excluded) && Answers(o, src) && AllFramed(codec, docs)
    requires src.blob == Success(Frames(codec, docs)) && src.recorded.value <= |docs|
    ensures Unreported(ItemOutcome(codec, rule, excluded, o, src, have).1) <==> AllGoIn(rule, StartOf(o, have), docs)
  {
    hide ItemOutcome, SettleInOrder, Frames, AllFramed, NoneTolerated, Answers;
    WholeBlobSettles(codec, rule, excluded, o, src, have, docs);
    IntolerantInOrder(rule, excluded, StartOf(o, have), docs);
  }

  // Where only repeated ids are refused.

  /** Inserting meets no intolerable error exactly when the ids are apart or repeating one is tolerated. */
  lemma ApartOrTolerated(excluded: InsertError -> bool, start: seq<Document>, docs: seq<Document>)
    requires IdsApart(start)
    ensures SettleInOrder(DuplicateId, excluded, start, docs).error == None <==>
            IdsApart(start + docs) || excluded(DUPLICATE_ID)
  {
    hide IdsApart, SettleInOrder, AllGoIn, OneByOne;
    ToleratedIffDuplicateIs(excluded);
    AllGoInIffApart(start, docs);
    InOrderAll(DuplicateId, excluded, start, docs);
    if excluded(DUPLICATE_ID) {
      ToleratedInOrder(DuplicateId, excluded, start, docs);
    } else {
      IntolerantInOrder(DuplicateId, excluded, start, docs);
    }
  }

  /**
   A cut blob goes unreported exactly when all else answers, it is cut on a frame boundary with no
   fewer documents than recorded, and their ids are apart from each other and from what is there, unless duplicates
   are tolerated.
   */
  lemma CutReportIff(codec: Codec<Document>, x: Exclusions, o: Options, src: ItemSource, have: seq<Document>,
                     docs: seq<Document>, cut: nat)
    requires AllFramed(codec, docs) && cut <= |Frames(codec, docs)|
    requires src.blob == Success(Frames(codec, docs)[..cut]) && IdsApart(StartOf(o, have))
    ensures var k := WholeFrames(codec, docs, cut);
            var r := ItemOutcome(codec, DuplicateId, For(x, src.collection), o, src, have).1;
            Unreported(r) <==>
            Answers(o, src) && |Frames(codec, docs[..k])| == cut && k >= src.recorded.value &&
            (IdsApart(StartOf(o, have) + docs[..k]) || Excludes(x, src.collection, DUPLICATE_ID))
  {
    hide ItemOutcome, SettleInOrder, Frames, AllFramed, IdsApart, Answers, Excludes;
    UnreportedIff(codec, DuplicateId, For(x, src.collection), o, src, have, docs, cut);
    ApartOrTolerated(For(x, src.collection), StartOf(o, have), docs[..WholeFrames(codec, docs, cut)]);
  }

  /** By default, restoring documents with ids of their own into an emptied collection, only the cut decides. */
  lemma DefaultCutReportIff(codec: Codec<Document>, o: Options, src: ItemSource, have: seq<Document>,
                            docs: seq<Document>, cut: nat)
    requires Answers(o, src) && AllFramed(codec, docs) && cut <= |Frames(codec, docs)|
    requires src.blob == Success(Frames(codec, docs)[..cut]) && o.clean && IdsApart(docs)
    ensures var k := WholeFrames(codec, docs, cut);
            var r := ItemOutcome(codec, DuplicateId, For(NO_EXCLUSIONS, src.collection), o, src, have).1;
            Unreported(r) <==> |Frames(codec, docs[..k])| == cut && k >= src.recorded.value
  {
    hide ItemOutcome, Frames, AllFramed, Answers;
    var k := WholeFrames(codec, docs, cut);
    CutReportIff(codec, NO_EXCLUSIONS, o, src, have, docs, cut);
    ApartPrefix(docs[..k], docs);
    assert StartOf(o, have) + docs[..k] == docs[..k];
  }

  /** A codec for documents of one byte, in frames of the least length. */
  const TINY: Codec<Byte> := Codec((d: Byte) => [5, 0, 0, 0, d],
                                  (b: Bytes) => if |b| == 5 then Success(b[4]) else Failure("no frame"))

  /** Such an input: two frames cut behind the first, of a dump that recorded no count. The second is lost unnoticed. */
  lemma CountlessCutIsSilent(o: Options, src: ItemSource)
    requires src.recorded == Success(0) && src.blob == Success(Frames(TINY, [1, 2])[..5])
    requires o.clean && src.dropError == None && src.ensureError == None && src.indexes == []
    ensures AllFramed(TINY, [1, 2]) && |Frames(TINY, [1, 2])| == 10
    ensures var (after, r) := ItemOutcome(TINY, (have, d) => None, e => false, o, src, []);
            after == [1] && Unreported(r) && r.inserted == 1
  {
    var docs: seq<Byte> := [1, 2];
    assert docs[1..] == [2] && docs[1..][1..] == [] && docs[..1] == [1];
    assert Frames(TINY, [2]) == TINY.encode(2);
    assert Frames(TINY, [1]) == TINY.encode(1);
    assert WholeFrames(TINY, docs, 5) == 1;
    UnreportedIff(TINY, (have, d) => None, e => false, o, src, [], docs, 5);
  }
}
