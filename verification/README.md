# Leafmask: a verified model

Leafmask dumps MongoDB databases in subsetted, anonymized form and restores them. This project
models the parts of it where a mistake would be silent, and proves what they promise.

- **Streaming multipart upload.** `PartSchedule` is the arithmetic of the growing parts and the
  one way a byte stream is cut into them. `UploadProtocol` is the writing thread, the uploading
  thread and the bounded channel between them as interleaved atomic steps, with a sink that may
  fail any call; its results hold in every reachable state of every interleaving.
  `MultipartWriter` holds the two loops as the code runs them.
- **Referential subsetting.** `References` resolves declared references, `Subset` is the work-list
  traversal, `Projection` the reduced documents it reads, and `DumpPlan` the way from a closure
  to the `_id` filters of a dump.
- **Worker pools.** `WorkerPool` interleaves any number of workers over a claim counter and a stop
  flag that may be read stale. `DumpRun` and `RestoreRun` put the dump and the restore on top of
  it and prove them equal to their sequential runs.
- **The condition language.** `QuoteScan` is its scanner, `Condition` the two meanings of a text
  (evaluation in memory, compilation to a filter), `Mongo` what a filter means on the server,
  `FilterAgreement` where the two meanings agree, `ConditionText` the round trip through text, and
  `ConditionMeaning` what each operator means as it is spelled.
  `Text` has the order of strings, trimming and integers, `F64` the rounding of integers.
- **Blob, restore and transformation.** `Blob` frames documents, `BatchInsert` inserts them in
  batches that are resumed, with the errors that `ErrorExclusions` tolerates, and `RestoreItem`
  restores one collection. `Bson` and `Paths` give the dotted-path reads and writes, `Transform`
  compiles and applies rules, `Inheritance` propagates them along references. `CollectionDump`
  dumps one collection and follows a reference, and a whole collection, through subsetting,
  transformation, dump and restore; `DumpAndRestore` composes the two runs. `NameFilter` holds the
  include and exclude lists.
- **Retention.** `Retention` selects and deletes dumps, on the sorting of `StableSort`, and
  compares the result with how `latest` is resolved.

Loops and objects that change state are methods and classes here, each proved against a function
of its inputs or of the old state; the functions and lemmas say what that function means.
Library parsers and codecs (RFC 3339 section 5.6, floating point, Unicode letters, BSON decoding,
the transformer catalog, casts) are parameters, so every result holds for any choice of them.
Timestamps are integers, doubles are reals.

The code differs from its documentation in two places, and the model follows the code. Subsetting
is wired into `dump` (src/cli.rs:598-622), although docs/configuration/subsetting.md:12-21 still
says otherwise. Ordering filters follow MongoDB's type bracketing, under which the comparison
described in docs/configuration/subsetting.md:113-118 matches no date.

`dafny verify dfyconfig.toml` checks the whole project.

## Model

| member | source | states |
|---|---|---|
| PartSchedule.PartSizeFits | src/storage/multipart.rs:39-42 | the shifted part size never exceeds 2^47, so no 64-bit shift overflows |
| PartSchedule.ScheduleIs | src/storage/multipart.rs:19-42 | 8,388,608 bytes for the first thousand parts, twice as many every thousand parts, 24 times |
| PartSchedule.SumOfBands | src/storage/multipart.rs:19-26 | the first 1000k full parts, k up to 25, carry exactly 1000 * 8 MiB * (2^k - 1) bytes |
| PartSchedule.PartCountLimit | src/storage/multipart.rs:21-26 | a stream needs at most 10,000 parts if and only if it has at most 8,581,545,984,000 bytes |
| PartSchedule.CutIsLossless | src/storage/multipart.rs:140-148 | the full parts and the rest are the bytes in order; every full part has its scheduled size |
| PartSchedule.CutIsUnique | src/storage/multipart.rs:140-148 | sizes determine the cut: no other parts of the scheduled sizes hold the same bytes |
| PartSchedule.CutResumes | src/storage/multipart.rs:137-150 | parts depend on the concatenated bytes, not on how they were spread over `write` calls |
| PartSchedule.PartsHoldTheBytes | src/storage/multipart.rs:158-169 | the parts sent by the end, an empty one if need be, concatenate to exactly the bytes written |
| PartSchedule.PartsHaveSizes | src/storage/multipart.rs:158-169 | every part but the last has its scheduled size; the last is no larger, and empty only when nothing was written |
| UploadProtocol.StepKeepsInv | src/storage/multipart.rs:77-189 | every atomic step of either thread, and every caller action, keeps the invariant: log, messages in flight, cut and handles agree |
| UploadProtocol.FinishOkMeansUploaded | src/storage/multipart.rs:157-179 | in every interleaving an Ok from `finish` on a non-aborted writer means one successful completion with the tokens of parts 1..n in order, n at least 1, holding exactly the bytes written, whose number is returned |
| UploadProtocol.CompleteUploadMeans | src/storage/multipart.rs:77-99 | what a complete upload is in the log: parts numbered 1..n, each with its token, then one completion with these tokens |
| UploadProtocol.FinishReturnsSinkError | src/storage/multipart.rs:77-99 | `finish` fails if and only if the sink refused a part or the completion, and then with that very error, even if a later send failed too |
| UploadProtocol.FinishAfterAbortIsOk | src/storage/multipart.rs:170-188 | after an abort, `finish` returns Ok with nothing completed |
| UploadProtocol.OkMeansCompletedIffNotAborted | src/storage/multipart.rs:157-188 | an Ok means a completed upload exactly when the writer was not aborted before |
| UploadProtocol.AbortThenFinish | src/storage/multipart.rs:157-188 | such a run exists: abort, then finish, returns Ok with only an abort in the sink's log |
| UploadProtocol.OneClosingCall | src/storage/multipart.rs:77-99 | whether finished, aborted or dropped, the sink sees exactly one complete or abort, and no part after it |
| UploadProtocol.ChannelIsBounded | src/storage/multipart.rs:112-134 | the channel holds two messages at most, in every reachable state |
| UploadProtocol.StepsUseUpWork | src/storage/multipart.rs:112-188 | every step the threads take by themselves lowers a measure |
| UploadProtocol.OwnStepsEnd | src/storage/multipart.rs:112-188 | under any scheduling, a run of the threads' own steps is no longer than the work left at its start |
| UploadProtocol.NoDeadlock | src/storage/multipart.rs:112-134 | with a channel of capacity 2, some thread can always move while a call is under way or the sender is gone |
| UploadProtocol.RestIsReturn | src/storage/multipart.rs:112-188 | when no thread can move, every call has returned, and a finished, aborted or dropped upload has been closed at the sink |
| MultipartWriter.Link.Send | src/storage/multipart.rs:125-133 | a send fails from the moment the receiver has exited, and adds nothing then |
| MultipartWriter.StreamingMultipartWriter.Write | src/storage/multipart.rs:136-150 | after a write the channel holds exactly the full parts of all bytes written so far and the buffer the rest; an error means the channel stopped taking parts |
| MultipartWriter.StreamingMultipartWriter.CloseChannel | src/storage/multipart.rs:158-172 | a channel that takes everything has received exactly the parts of the bytes written and one Finish |
| MultipartWriter.StreamingMultipartWriter.FinishUpload | src/storage/multipart.rs:158-179 | closes the channel and reports how the uploader ended, not whether its own sends failed |
| MultipartWriter.StreamingMultipartWriter.Abort | src/storage/multipart.rs:181-188 | gives up the sender after one abort signal |
| MultipartWriter.RunUploader | src/storage/multipart.rs:77-99 | parts reach the sink in order from number 1; the first failure, the control message or the end of the channel decides the one closing call and the result |
| MultipartWriter.LeadingPartsOf | src/storage/multipart.rs:77-99 | what a finishing writer sends is what the receive loop takes for the parts |
| MultipartWriter.Upload | src/storage/multipart.rs:77-179 | writes, closing, receive loop and report composed: Ok means the sink has completed exactly the parts of all bytes, with their number as total; an error is the one the sink gave, with nothing completed |
| References.FirstMatchIsCase | src/subset/virtual_references.rs:85-97 | a polymorphic reference resolves to the first case whose discriminator matches, and to nothing only if none does |
| References.Resolves | src/subset/virtual_references.rs:85-97 | a fixed reference resolves to its collection for every document; a polymorphic one to its first case that the document holds, and to nothing only without one |
| References.ResolvedIsTarget | src/subset/virtual_references.rs:85-105 | a resolved target is always among the collections the edge can point at |
| References.TargetsMean | src/subset/virtual_references.rs:100-105 | the collections an edge can point at are its fixed target or those of its cases, and no others |
| References.FromEntries | src/subset/virtual_references.rs:116-150 | the edges are exactly the declarations with a target, field by field: referring collection and field, referenced field, flag, and the cases or else the fixed collection |
| References.EdgesAreDeclared | src/subset/virtual_references.rs:116-150 | an edge is in the graph if and only if some declaration has its very fields; polymorphic cases win over a fixed target, and a declaration with neither stands for no edge |
| References.EdgesInOrder | src/subset/virtual_references.rs:116-150 | edges stand in the order of the entries and of the references in them |
| Subset.NullReferencePullsIn | src/subset/database_subsetting.rs:125-131 | with a document whose reference holds null, a closure holds every document of the target collection whose referenced field is null or missing, and only those through this reference |
| Subset.LookupMeans | src/subset/database_subsetting.rs:125-131 | a lookup finds the documents whose referenced field equals the value, and no others |
| Subset.Traversal.Admit | src/subset/database_subsetting.rs:140-153 | a document is admitted and queued once, however often it is found |
| Subset.Traversal.SeedAll | src/subset/database_subsetting.rs:112-116 | all and only matching documents are seeded; a collection that cannot be read stops it |
| Subset.Traversal.FollowEdge | src/subset/database_subsetting.rs:121-133 | all and only the documents one reference requires are admitted |
| Subset.Traversal.Expand | src/subset/database_subsetting.rs:119-134 | the same for all references of one document |
| Subset.TakingAnyKeepsProgress | src/subset/database_subsetting.rs:119-134 | whichever queued document is taken next, the traversal stays on its way to the closure |
| Subset.Traverse | src/subset/database_subsetting.rs:102-137 | the traversal ends on every finite database, cycles included; on success it has admitted exactly the least set holding the seeds and closed under references, each document once; it fails only when a collection it needs cannot be read |
| Subset.ClosureIsUnique | src/subset/database_subsetting.rs:102-137 | there is only one such set, so the pop order cannot matter |
| Subset.ClosureIsReached | src/subset/database_subsetting.rs:102-137 | nothing is in a closure without a chain of references leading to it from a seeded document |
| Projection.ProjectKeeps | src/subset/mongo_source.rs:84-98 | a projected path reads the same in the projected document as in the whole one |
| Projection.BuildProjections | src/subset/mongo_source.rs:39-72 | each collection's projection is the sorted list without repetition of exactly `_id`, its reference fields, discriminators and referenced fields |
| Projection.ProjectionIsFaithful | src/subset/mongo_source.rs:28-82 | the projected documents show all the traversal looks at |
| Projection.FaithfulClosure | src/subset/mongo_source.rs:84-117 | the closure over projected documents is the closure over whole ones |
| DumpPlan.ComputeIds | src/subset/database_subsetting.rs:87-98 | the ids kept are exactly those of the closure's documents, per collection and in order of admission |
| DumpPlan.KeysAreDistinct | src/subset/database_subsetting.rs:147-161 | the text key `collection:id` tells documents apart when names hold no colon and ids are unique |
| DumpPlan.GovernedCollections | src/cli.rs:301-312 | governed are exactly the collections with a condition or on either end of a reference |
| DumpPlan.IdFilterMeans | src/cli.rs:317-331 | an `_id` filter selects exactly the documents whose id equals a listed one |
| DumpPlan.ClosureIsGoverned | src/cli.rs:294-312 | every collection the closure reaches is governed |
| DumpPlan.FiltersSelectClosure | src/cli.rs:317-331 | governed collections are dumped as their closure documents and nothing else |
| DumpPlan.SelectingClosureIsIntact | src/cli.rs:590-622 | a dump that selects the closure holds every document a dumped one refers to |
| DumpPlan.RefersAsDeclared | src/subset/virtual_references.rs:85-150 | one document refers to another in the graph if and only if a declared reference, by its own fields, points at its collection and finds it |
| DumpPlan.SubsetFilters | src/cli.rs:611-621 | from the graph and conditions to filters that select exactly the closure: intact, minimal, and failing only for an unreadable or refused collection |
| DumpPlan.PushDown | src/cli.rs:267-277 | without a graph each condition filters its own collection and no other is filtered |
| DumpPlan.ResolveDumpFilters | src/cli.rs:598-622 | whichever way the configuration goes, the dump is referentially intact and keeps every document a condition selects; with a graph and conditions it selects exactly the closure |
| DumpPlan.FiltersFromConfig | src/cli.rs:598-622 | from declared references and condition texts: what a condition selects is dumped; with a dumped document so is every document that holds the value of a declared reference; and of the collections named nothing is dumped that no such chain leads to from a selected document |
| WorkerPool.StepKeepsInv | src/dump/create.rs:192-214 | any step of any worker keeps the pool's invariant: every item unclaimed, in one worker's hands, or finished with its own outcome |
| WorkerPool.HaltingRaisesFlag | src/dump/create.rs:192-214 | a halting result in its slot has raised the stop flag, and a worker that sees the flag claims nothing more |
| WorkerPool.PoolCompletesPrefix | src/dump/create.rs:179-220 | under every schedule the claimed items are a prefix, all run to completion, and items are left over only behind a halting result |
| WorkerPool.UnfinishedCanStep | src/dump/create.rs:192-214 | a worker that is not done can always go on |
| WorkerPool.ScheduleIsBounded | src/dump/create.rs:192-214 | no schedule is longer than the work there is at the start |
| WorkerPool.RunPool | src/dump/create.rs:179-220 | the pool, with its next step left open at every point, ends with the outcomes of such a prefix |
| DumpRun.Enumerate | src/dump/create.rs:108-130 | included databases and collections in source order, numbered per database; the first one that cannot be listed is the error |
| DumpRun.KeptInOrder | src/dump/create.rs:116-119 | the collections dumped of a database are exactly those its lists leave, in source order |
| DumpRun.LayoutInOrder | src/dump/create.rs:108-130 | the databases and collections dumped are exactly those the include and exclude lists leave, in source order |
| DumpRun.Gather | src/dump/create.rs:142-162 | the first failure in item order, or sizes summed and entries filed under their database |
| DumpRun.ItemAdds | src/dump/create.rs:223-255 | what a collection adds to a dump: its own bytes, and an entry with its own name, count, indexes and number |
| DumpRun.SizesAddUp | src/dump/create.rs:142-152 | the size of a dump is the sum of the sizes of its collections |
| DumpRun.FirstFailureIsLowest | src/dump/create.rs:146-155 | the error reported is the one of the lowest-numbered failing collection |
| DumpRun.PrefixFailsAlike | src/dump/create.rs:134-155 | whatever the schedule, the results of the pool gather to those of the sequential run |
| DumpRun.Run | src/dump/create.rs:93-173 | a dump ends as its sequential run does, for every number of jobs and every schedule |
| DumpRun.SucceedsIff | src/dump/create.rs:93-155 | a dump succeeds if and only if there is a directory to spool in, the included databases can be listed and every collection is dumped |
| DumpRun.TocIsInSourceOrder | src/dump/create.rs:105-164 | a successful dump lists the included databases and collections in source order with consecutive restore numbers, each with the count and indexes its dump gave |
| QuoteScan.SplitTopLoop | src/transform/condition.rs:60-94 | the scanning loop computes the split of the text |
| QuoteScan.SplitIsLossless | src/transform/condition.rs:60-94 | joining the parts with the separator gives the text back |
| QuoteScan.SplitParts | src/transform/condition.rs:60-94 | no part holds an unquoted separator, and every part but the last closes its quotes |
| QuoteScan.SplitAtFirst | src/transform/condition.rs:60-113 | splitting cuts exactly where `find_op` finds the separator, again and again |
| QuoteScan.FindOpLoop | src/transform/condition.rs:237-259 | the scanning loop computes the position found |
| QuoteScan.FindIsFirst | src/transform/condition.rs:237-259 | the position is the first unquoted occurrence, and none is reported only if there is none |
| QuoteScan.FindWordOpLoop | src/transform/condition.rs:265-292 | the scanning loop computes the position found |
| QuoteScan.FindWordIsFirst | src/transform/condition.rs:265-292 | the same for a word operator touched by no identifier character |
| Text.ParseShow | src/transform/condition.rs:377-379 | every 64-bit integer written in decimal parses to itself |
| Text.ParsePositional | src/transform/condition.rs:377-379 | numerals are positional: one more digit behind makes ten times the value and that digit, up to 2^63 - 1; a sign in front is a sign |
| Text.OnlyNumerals | src/transform/condition.rs:377-379 | nothing but signed digits parses as an integer |
| Text.TrimMeans | src/transform/condition.rs:366-368 | trimming removes the blanks at both ends and nothing else |
| Condition.ParseMeans | src/transform/condition.rs:27-34 | only texts of blanks are refused |
| Condition.NoListIsEmpty | src/transform/condition.rs:297-312 | a right-hand side without brackets lists nothing |
| F64.RoundMonotone | src/transform/condition.rs:386-393 | converting 64-bit integers to f64 keeps their order, though it merges some |
| F64.RoundsToNearest | src/transform/condition.rs:386-393 | converting an integer gives a nearest number with 53 significant bits, and of two the even one |
| FilterAgreement.BareAgrees | src/transform/condition.rs:162-176 | outside arrays, a bare field's filter matches exactly the documents where the field is truthy |
| FilterAgreement.MembershipGap | src/transform/condition.rs:181-195 | list membership disagrees exactly when some listed value is a date text of the field's instant, or a number f64 merges with the field's, and no listed number is the field's own |
| FilterAgreement.NumberOrderingGap | src/transform/condition.rs:330-350 | an ordering in f64 differs from the exact one exactly on numbers that f64 merges and the operator would tell apart |
| FilterAgreement.OrderingGap | src/transform/condition.rs:330-350 | orderings agree exactly outside the stated clashes, numbers and dates of any size included |
| FilterAgreement.TermAgreesIffNoClash | src/transform/condition.rs:96-224 | on the fragment (no arrays, field names without operators) evaluation and filter agree on a document if and only if the term does not clash with the field: date text, an ordering on strings, bools or null, or numbers f64 merges |
| FilterAgreement.EvalIsFilter | src/transform/condition.rs:37-57 | for whole conditions without clashes, `eval` holds exactly when the document matches `to_filter`, absent fields and several conjuncts on one field included |
| FilterAgreement.IntegersDivergeIff | src/transform/condition.rs:314-403 | an integer field against an integer literal, of any size: evaluation and filter disagree exactly when f64 merges the two and the operator would tell them apart |
| FilterAgreement.LargeIntegersDiverge | src/transform/condition.rs:386-403 | such a term: a field of 2^53 + 1 equals the literal 2^53 in memory, and the server does not match it |
| ConditionText.LiteralReadsBack | src/transform/condition.rs:366-384 | every rendered quoted, numeric, bool or null literal parses to its value |
| ConditionText.ListReadsBack | src/transform/condition.rs:297-312 | a rendered list parses to the values of its literals, in order |
| ConditionText.TermReadsBackIff | src/transform/condition.rs:96-113 | a rendered term is dispatched to its own field, operator and operand if and only if its path spells no word operator |
| ConditionText.OperandsReadBack | src/transform/condition.rs:297-384 | the operands so found parse to the values written |
| ConditionText.DnfSplitsIff | src/transform/condition.rs:49-57 | a rendered or-of-ands splits into its conjunctions if and only if no field named "or" stands between blanks |
| ConditionText.ConjReadsBackIff | src/transform/condition.rs:53-57 | a rendered conjunction reads back term by term if and only if each of its terms does |
| ConditionText.ConditionReadsBack | src/transform/condition.rs:49-113 | rendering a condition and reading it recovers every term, operator and operand if and only if no field named "or" stands between blanks and no path spells a word operator |
| ConditionText.FieldNamedOrIsMisread | src/transform/condition.rs:49-57 | such an input: a comparison of a field named "or" behind another term |
| ConditionMeaning.IntegersCompare | src/transform/condition.rs:314-348 | `p == b`, `p != b`, `p > b`, `p < b`, `p >= b` and `p <= b` in digits hold for an integer field exactly as the operator says of the two integers as doubles |
| ConditionMeaning.NumbersCompare | src/transform/condition.rs:314-348 | the same for numbers of any type on either side |
| ConditionMeaning.InstantsCompare | src/transform/condition.rs:330-364 | the same for points in time, dates and RFC 3339 texts alike: equality exactly, order as doubles |
| ConditionMeaning.OthersCompare | src/transform/condition.rs:330-403 | any other value equals only itself, and no ordering holds for it |
| ConditionMeaning.ComparisonFilters | src/transform/condition.rs:178-224 | the six texts become equality, `$ne`, `$gt`, `$lt`, `$gte` and `$lte` with the literal, a date text as a date |
| ConditionMeaning.MembershipMeans | src/transform/condition.rs:314-326 | `p in [..]` holds if and only if `p ==` one of the literals does, and `p not in [..]` if and only if none does |
| ConditionMeaning.MembershipFilters | src/transform/condition.rs:178-195 | they become `$in` and `$nin` with the literals in order, date texts as dates |
| ConditionMeaning.BareMeans | src/transform/condition.rs:405-415 | a bare field holds for every value that is there but null, false, zero and the empty text, and becomes `$exists` with `$nin` |
| ConditionMeaning.WordCompares | src/transform/condition.rs:366-384 | an unquoted word, as in `status == active`, is text |
| ConditionMeaning.ConnectivesMean | src/transform/condition.rs:49-57 | an or-of-ands holds if and only if all term texts of one of its conjunctions do |
| ConditionMeaning.ConnectiveFilters | src/transform/condition.rs:115-146 | it becomes the `$or` of the `$and`s of the filters of its terms, and one of a kind stands for itself |
| ConditionMeaning.OrOfAnd | src/transform/condition.rs:49-57 | as spelled, `a or b and c` is a, or b and c together |
| Blob.DocumentReader.ReadExact | src/dump/mod.rs:259-263 | exactly the next n bytes whatever short reads the stream makes, or nothing if it ends before |
| Blob.DocumentReader.NextDocument | src/dump/mod.rs:235-264 | the document framed at the front, the end, or an error, independent of how the stream cuts its reads |
| Blob.DocumentReader.NextBatch | src/dump/mod.rs:269-278 | the next documents up to the batch size, at least one asked for; an error loses the batch |
| Blob.CollectionDataWriter.WriteDocument | src/dump/mod.rs:392-401 | the blob is the concatenation of the written documents' frames and the count their number |
| Blob.FramedMeans | src/dump/mod.rs:235-264 | a document of 5 bytes to 64 MiB is framed when its first four bytes spell its length, the lowest byte first, as in the BSON Specification 1.1 |
| Blob.ImplausibleIsCorrupt | src/dump/mod.rs:253-264 | a length below 5, above 64 MiB or beyond the end of the blob is corruption |
| Blob.BlobReadsBack | src/dump/mod.rs:235-278 | reading back what was written returns the documents in order and a clean end |
| Blob.CutBlob | src/dump/mod.rs:235-264 | a blob cut at any byte yields exactly the documents whose frames end before the cut, and ends cleanly if and only if the cut is a frame boundary |
| Blob.TruncationIsShort | src/dump/mod.rs:235-264 | a strict prefix always yields fewer documents |
| Blob.BatchesCover | src/dump/mod.rs:267-278 | batches concatenate to the documents; every one but the last is full, none is empty, and before corruption fewer than one batch is withheld |
| BatchInsert.Collection.Insert | src/mongo.rs:332-353 | a document goes in unless the collection refuses it |
| BatchInsert.Collection.InsertMany | src/mongo.rs:157-177 | the default batch insert: ordered stops at its first failure, unordered tries every document |
| BatchInsert.OrderedAttemptSettles | src/restore/database.rs:362-366 | resuming right after a tolerated failure loses no document and repeats none |
| BatchInsert.InsertBatch | src/restore/database.rs:336-369 | for any refusals and tolerances, a batch settles what its ordering mode means: documents, both counters and the error |
| BatchInsert.ModesAgree | src/restore/database.rs:336-369 | for any refusals and tolerances, ordered and unordered writes end with the same error and the same number of skipped documents, and alike altogether without an error; with one, unordered writes only put in more behind |
| BatchInsert.SettleConcat | src/restore/database.rs:308-331 | settling documents in portions, up to the first intolerable error, is settling them in one |
| BatchInsert.ToleratedSettles | src/restore/database.rs:336-369 | when failures are tolerated, both modes leave the collection as one insert at a time would, and inserted + skipped is the number of documents |
| ErrorExclusions.IsExcluded | src/restore/error_exclusions.rs:68-101 | an error is excluded if and only if its code or index name is listed, for every collection or for this one |
| BatchInsert.DuplicatesTolerated | src/restore/error_exclusions.rs:68-101 | a restore tolerates all refusals of repeated ids if and only if code 11000 or the index `_id_` is excluded for the collection |
| BatchInsert.SettlesAllIff | src/restore/database.rs:336-369 | whatever is tolerated, in both modes, all documents of a batch go in if and only if none is refused when its turn comes |
| BatchInsert.IntolerantSettles | src/restore/database.rs:336-369 | with nothing tolerated, a batch is without an error if and only if no document is refused |
| BatchInsert.AllGoInIffApart | src/mongo.rs:332-353 | a collection that refuses only repeated ids takes all documents if and only if their ids and its own are pairwise different |
| BatchInsert.RestoringTwice | src/mongo.rs:332-353 | restoring again what is already there changes nothing |
| RestoreItem.InsertDocuments | src/restore/database.rs:308-331 | streaming a blob into the collection settles its batches in order, counting what was read, up to the first error |
| RestoreItem.RestoreCollection | src/restore/database.rs:226-302 | the collection and result of one item, for every failure of metadata, clean, ensure, blob, insert and index |
| RestoreItem.CreateIndexes | src/restore/database.rs:373-387 | the indexes created one after the other, up to the first that cannot be |
| RestoreItem.WantsMeans | src/restore/database.rs:373-387 | the indexes wanted are those recorded but `_id_` that the include and exclude lists leave, in order |
| RestoreItem.CreatedMeans | src/restore/database.rs:373-387 | either every wanted index was created and counted, the automatic one and those filtered out aside, or the error is that of the first that could not be |
| RestoreItem.BatchesSettle | src/restore/database.rs:308-369 | for any refusals and tolerances, both write modes and any batches: the same error or none, and the same skipped documents, as inserting the documents one at a time; without an error the same collection and counts |
| RestoreItem.TruncationIsReported | src/restore/database.rs:249-291 | a blob cut anywhere short of its end is reported failed or fatal, whatever is tolerated and for every batch size |
| RestoreItem.UnreportedIff | src/restore/database.rs:226-302 | a blob cut at any byte goes unreported if and only if metadata, target and indexes answer, it is cut on a frame boundary, holds no fewer documents than recorded, and none of them meets an intolerable error; the collection is then as inserting them one at a time leaves it |
| RestoreItem.CutReportIff | src/restore/database.rs:226-302 | where only repeated ids are refused, the last condition is that the ids are apart from each other and from what is there, or duplicates are tolerated |
| RestoreItem.DefaultCutReportIff | src/restore/error_exclusions.rs:51-64 | by default, into an emptied collection and with ids of their own, only the cut and the recorded count decide |
| RestoreItem.CountlessCutIsSilent | src/restore/database.rs:256-279 | such an input: two documents, no count recorded, the blob cut behind the first; one is lost without a report |
| RestoreItem.WholeBlobSettles | src/restore/database.rs:226-331 | a whole blob is reported if and only if some document meets an intolerable error, and otherwise leaves the collection as inserting its documents one at a time would, whatever is refused and tolerated |
| RestoreItem.FailureIsReported | src/restore/database.rs:280-294 | an intolerable failure is fatal with `exit_on_error`, and otherwise puts the collection on the failed list; its indexes are not created |
| RestoreItem.IndexesFollowDocuments | src/restore/database.rs:280-302 | behind documents that went in, the indexes are created unless left for the end; one that cannot be created is fatal |
| RestoreItem.EarlyErrorsAreFatal | src/restore/database.rs:230-254 | errors of metadata, clean and ensure are fatal, in this order, and leave the documents alone |
| RestoreItem.WholeBlobRestores | src/restore/database.rs:226-331 | with every refusal tolerated, each document of a whole blob is inserted or skipped once, and the collection holds what is inserted unless refused |
| RestoreItem.WholeBlobGoesInIff | src/restore/database.rs:226-331 | whatever is tolerated, a whole blob puts exactly its documents behind what was there if and only if none is refused; it then reports nothing and skips nothing |
| RestoreItem.IntolerantReport | src/restore/database.rs:226-331 | with nothing tolerated, a whole blob goes unreported if and only if no document is refused |
| RestoreRun.Gather | src/restore/database.rs:150-160 | totals and failed list in item order, or the first fatal error |
| RestoreRun.TotalsAddUp | src/restore/database.rs:150-160 | counters add up over the results, and the failed are listed in order |
| RestoreRun.FatalIsLowest | src/restore/database.rs:150-160 | the error returned is the lowest-numbered fatal one |
| RestoreRun.QueuedExactly | src/restore/database.rs:129-139 | exactly the included collections of the dump are queued |
| RestoreRun.QueueInOrder | src/restore/database.rs:129-139 | the queue follows the table of contents, database by database and collection by collection |
| RestoreRun.StopsWhen | src/restore/database.rs:205-212 | a restore stops claiming collections only behind a fatal error with `exit_on_error` |
| RestoreRun.PrefixGathersAlike | src/restore/database.rs:187-222 | whatever the schedule, the report or error is that of the sequential run, and a report is given only if no collection was left unclaimed |
| RestoreRun.RestoreSequentially | src/restore/database.rs:141-146 | the sequential path restores every collection, also after a failure |
| RestoreRun.RestoreDocuments | src/restore/database.rs:141-160 | the outcome does not depend on jobs or schedule; on success, and always without `exit_on_error`, every collection was restored as sequentially |
| RestoreRun.CreateLateIndexes | src/restore/database.rs:164-175 | late indexes are created collection by collection; the first that fails is the error |
| RestoreRun.ToleranceMeans | src/restore/error_exclusions.rs:68-101 | a restored collection tolerates what is listed for all collections or under its own name |
| RestoreRun.IndexesAfterMeans | src/restore/database.rs:164-175 | the late stage creates and counts every wanted index of every collection, or fails with the first that cannot be created |
| RestoreRun.Run | src/restore/database.rs:123-181 | a whole restore: hooks, documents, late indexes, in that order, with the error of the first stage that fails |
| RestoreRun.StagesInOrder | src/restore/database.rs:123-181 | the error of a restore is that of its first failing stage; without one the report has the counters of all stages |
| RestoreRun.RestoreDump | src/restore/database.rs:123-181 | an Ok means every included collection of the table of contents was restored as its own item says |
| RestoreRun.CleanReportMeansAllRestored | src/restore/database.rs:150-160 | a report without failed collections means none failed or was fatal |
| RestoreRun.CleanReportIff | src/restore/database.rs:123-331 | for any refusals, tolerances and cuts: the report is clean if and only if metadata, target and indexes answer and every blob ends on a frame boundary, with no fewer documents than recorded and no intolerable error; it then says what every collection holds |
| RestoreRun.IntolerantReportMeans | src/restore/database.rs:336-369 | with nothing tolerated, a clean report is given if and only if no document is refused, and says that every dumped document was put in, in order |
| RestoreRun.CleanReportCounts | src/restore/database.rs:150-160 | with nothing tolerated, a clean report counts exactly the dumped documents as inserted and none as skipped |
| RestoreRun.DumpRestoresWhole | src/restore/database.rs:226-331 | whole blobs put exactly their documents, in order, behind what the target starts with if and only if no `_id` comes up twice in a collection; the report is clean if and only if duplicates are also tolerated wherever one does |
| RestoreRun.SilentLossIff | src/restore/database.rs:336-369 | documents are lost under a clean report if and only if some `_id` comes up twice and duplicates are tolerated wherever one does |
| RestoreRun.OldVersionStays | src/restore/database.rs:336-369 | such an input: a document restored over an older version, code 11000 excluded; the old one stays and the report is clean |
| Bson.SetPathIsSetSegments | src/transform/apply.rs:260-276 | re-joining and re-splitting the path on the way down is the same as walking its segments |
| Bson.PathLensLaws | src/transform/apply.rs:250-276 | get after set, set after set, and writing back what is there, for all dotted paths |
| Bson.PathFrame | src/transform/apply.rs:250-276 | writing a path changes no path that is neither prefix nor extension of it, even where a scalar on the way is replaced |
| Bson.GetBelowSet | src/transform/apply.rs:260-276 | below a written path one sees the written value and nothing of what it replaced |
| Bson.InsertMeans | src/transform/apply.rs:260-276 | an insert keeps the place of a present key, puts a new one last, and changes no other |
| Transform.Compile | src/transform/apply.rs:108-172 | fails exactly when some entry does not compile; the plan has, for each collection with an entry, what its last one compiles to |
| Transform.CollectionCompilesIff | src/transform/apply.rs:108-172 | an entry compiles if and only if its condition parses, its query is a document, and every rule names a registered transformer with valid parameters, a condition that parses, a known type, and a transformer that builds or dynamic parameters that fit |
| Transform.TransformDocument | src/transform/apply.rs:197-240 | the rules applied in order, each to the original document, up to the first error; `RuleAfterwards` and `OneRuleOutcome` in `Inheritance` say what one rule does |
| Transform.RuleResultStands | src/transform/apply.rs:212-238 | a rule's result, computed from the original document, stands at its path unless a later rule that runs on the document is related to the path; where the rule does not run, the original stands unless one that runs is related |
| Transform.UntouchedPath | src/transform/apply.rs:212-238 | a path unrelated to every rule that runs on the document keeps its value |
| Transform.FailsIffARuleFails | src/transform/apply.rs:212-238 | a document fails exactly when one of its rules does |
| Transform.OrderDoesNotMatter | src/transform/apply.rs:212-238 | the order of such rules changes neither success nor any value at a path they are about |
| Inheritance.ExpandInherited | src/transform/inheritance.rs:46-91 | the explicit transformations and what they propagate, source by source and edge by edge |
| Inheritance.SourcesKeepShape | src/transform/inheritance.rs:46-91 | explicit transformations come first and are never overridden; a field inherits at most once; what is inherited propagates no further |
| Inheritance.SourcesInherit | src/transform/inheritance.rs:46-91 | a field inherits exactly when it has no rule of its own and some propagating rule is referenced by it; it then inherits from the first such rule |
| Inheritance.InheritsIff | src/transform/inheritance.rs:46-91 | a field inherits if and only if it has no rule of its own and a declared edge of it points at the collection and field of a propagating rule; it inherits name and parameters, and propagates no further |
| Inheritance.ExpandConfigs | src/transform/inheritance.rs:104-151 | the configuration with every inherited rule on the first entry of its collection, or on a new one |
| Inheritance.ExpansionExtends | src/transform/inheritance.rs:124-149 | configured entries keep gate, query and rules; rules are only appended |
| Inheritance.ExpandingTwice | src/transform/inheritance.rs:104-151 | expanding an expanded configuration changes nothing |
| Inheritance.CompileWithReferences | src/transform/apply.rs:108-172 | the plan is the one of the expanded configuration |
| Inheritance.ExpandedLast | src/transform/inheritance.rs:139-147 | the entry that counts after the expansion: with all inherited rules if the collection has one entry or none, as configured if it has several |
| Inheritance.FieldAfterwards | src/transform/apply.rs:204-240 | a field that a rule is about holds the transformer's result where entry and rule are open to the document, and is as it was elsewhere, if no other rule of the entry that runs on the document is related to it |
| Inheritance.RuleAfterwards | src/transform/apply.rs:212-238 | where a rule runs, its field holds what the transformer makes of the value cast to the configured type; with dynamic parameters the transformer is the one built from this very document's |
| Inheritance.OneRuleOutcome | src/transform/apply.rs:212-238 | a document under one rule: unchanged where shut, else the cast, the parameters, the build and the transformer in turn, with the first error or the result written |
| Inheritance.FailsWithFirst | src/transform/apply.rs:212-238 | under several rules a document fails exactly when one of them alone would, with the first such error |
| Inheritance.SidesAfterwards | src/transform/apply.rs:103-240 | the two sides of a reference end as their own gates and transformers make them from the shared value, the referring one by the first propagating rule an edge of its field points at |
| Inheritance.ReferenceStaysIff | src/transform/apply.rs:103-240 | values equal across a reference, both sides running one transformer that looks at the value alone, are equal afterwards if and only if the gates of the two sides are open or shut alike, or the value does not change |
| Inheritance.TwoSourcesStayIff | src/transform/inheritance.rs:46-91 | where the field inherits another rule than its target's, as a polymorphic reference may, the sides stay equal if and only if both transformers give the value the same |
| Inheritance.ReferencesStayConsistent | src/transform/apply.rs:103-240 | without conditions on either side, values equal across the reference before are equal after; other rules matter only where they run on these two documents and are related to these two fields |
| Inheritance.PassedReferenceStaysIff | src/transform/apply.rs:204-240 | where one side, whichever it is, runs the rule and the other passes its field by, the two stay equal if and only if the rule is shut to the document or does not change the value |
| Inheritance.RepeatedEntryIsMissed | src/transform/inheritance.rs:139-147 | of a collection with several entries the plan is the last entry as configured, so that an inherited rule, which goes to the first, does not reach it |
| Inheritance.RepeatedReferrerStaysIff | src/transform/inheritance.rs:139-147 | with several entries for the referring collection, the last leaving the field alone, the sides stay equal if and only if the rule is shut to the document or does not change the value |
| Inheritance.ReplacedRuleStaysIff | src/transform/apply.rs:108-172 | with the rule's entry replaced by a later one that leaves the field alone, only the referring side is transformed: the sides stay equal if and only if its gate is shut or the value does not change |
| Inheritance.OrderKeepsOldId | src/transform/inheritance.rs:139-147 | two such inputs: with `orders` configured twice, or gated by a condition the order does not meet, the user's `_id` is replaced and the order keeps the old one |
| CollectionDump.DumpCollection | src/dump/create.rs:258-296 | the blob frames, and the count counts, what the selected documents contribute; a document that cannot be transformed is the error |
| CollectionDump.QueryMeans | src/transform/apply.rs:244-248 | a custom query asks each of its fields to hold its value |
| CollectionDump.EmittedExactly | src/dump/create.rs:269-285 | a blob holds exactly what some streamed, included document is transformed to |
| CollectionDump.BlobHolds | src/dump/create.rs:269-285 | the blob in terms of the plan: the transforms of the documents that the query matches, and nothing else |
| CollectionDump.EmittedInOrder | src/dump/create.rs:267-287 | documents are written in the order they are read, each once |
| CollectionDump.ApartIffEmitsApart | src/dump/create.rs:269-285 | the ids in a blob are pairwise different if and only if no two of the dumped documents contribute the same one |
| CollectionDump.EmittedIdsStayApart | src/dump/create.rs:269-285 | a plan that leaves `_id` alone, or replaces it by an injective rule that no later rule overwrites, keeps the dumped ids apart |
| CollectionDump.RestoredAsDumped | src/restore/database.rs:226-331 | restoring a dump with `clean` leaves exactly the selected documents, transformed, in order, if and only if the written ids are apart in each collection; the report is clean if and only if duplicates are also tolerated wherever two collide |
| CollectionDump.CollidingIdsAreLost | src/restore/database.rs:336-369 | when written ids collide and duplicates are tolerated there, documents are lost under a clean report, and only then |
| CollectionDump.TwoUsersBecomeOne | src/restore/database.rs:336-369 | such an input: two users under a constant `_id` rule, code 11000 excluded; one is left, and the report is clean |
| CollectionDump.DefaultReportIsHonest | src/restore/error_exclusions.rs:51-64 | with nothing excluded, as by default, the report is clean if and only if everything was restored |
| CollectionDump.IdsOfTheirOwnRestoreWhole | src/restore/database.rs:226-331 | a database with ids of its own, whose plan touches `_id` at most by an injective rule, is restored whole, whatever is excluded |
| CollectionDump.DumpedReferenceHolds | src/dump/create.rs:258-296 | through subsetting and anonymization a reference keeps holding: its target is in the dump, and both written documents carry the same value on its two sides if and only if their gates are open or shut alike or the value does not change |
| DumpAndRestore.DumpItem | src/dump/create.rs:223-255 | one collection dumped, documents and structure, is what the run over all collections takes it for |
| DumpAndRestore.ListedIsStored | src/dump/create.rs:93-173 | the table of contents of a successful dump is the enumerated layout, and every collection on it was dumped |
| DumpAndRestore.RestoreReadsDump | src/restore/database.rs:123-146 | what a restore queues and reads back is what dumping those collections wrote, counts included |
| DumpAndRestore.CleanReportMeans | src/restore/database.rs:123-181 | with `clean`, a report without failed collections means that the target holds everything selected, transformed, in order, if and only if no two written ids of a collection are equal; by default it always does |
| DumpAndRestore.DumpThenRestore | src/restore/database.rs:123-181 | both runs composed, for any jobs and schedules on either side: two Oks and an empty failed list mean just that for all included collections |
| StableSort.SortIsSorted | src/dump/management.rs:93-94 | the result of the library's sort is in order |
| StableSort.SortThenFilter | src/dump/management.rs:93-94 | sorting is stable: dropping elements before or after it comes to the same |
| Retention.NewestIds | src/dump/management.rs:87-98 | the protected ids are those of the n newest completed dumps |
| Retention.SelectForDeletion | src/dump/management.rs:81-134 | the ids of the unprotected dumps that some rule asks for, in text order |
| Retention.SelectedIff | src/dump/management.rs:100-131 | an id is deleted if and only if nothing protects it and some rule asks for its dump |
| Retention.DeletedIff | src/dump/management.rs:100-131 | an id is deleted if and only if it is not among the protected and its dump is completed under `retain_recent`, older than the age or the date, failed, or unfinished or unknown, as the policy asks |
| Retention.RetainForMeans | src/dump/management.rs:112-116 | `retain_for` alone deletes exactly the dumps created before now minus the age |
| Retention.BeforeDateMeans | src/dump/management.rs:117-121 | `before_date` alone deletes exactly the dumps created before it |
| Retention.PruneFlagsMean | src/dump/management.rs:122-130 | `prune_failed` deletes the failed dumps and `prune_unsafe` the unfinished and unknown ones, whatever their age, and no completed one |
| Retention.OlderGoesToo | src/dump/management.rs:112-121 | the date rules are closed downwards: with a dump they delete every older one |
| Retention.NoOlderLeft | src/dump/management.rs:100-121 | under any policy, nothing unprotected is left that is as old as a dump a date rule reaches |
| Retention.SelectedInOrder | src/dump/management.rs:132-134 | the ids come in the order of their text, each once |
| Retention.KeptMeans | src/dump/management.rs:138-152 | what is left are the dumps whose ids are not selected |
| Retention.Storage.Prune | src/dump/management.rs:138-152 | a dry run deletes nothing; otherwise the selected dumps go in order, up to the first the backend refuses |
| Retention.KeepsTheNewest | src/dump/management.rs:87-111 | with `retain_recent` n, the completed dumps that are left are exactly the n newest |
| Retention.RetentionKeepsRecent | src/dump/management.rs:87-111 | min(n, completed) completed dumps are left, each at least as recent as every completed one deleted |
| Retention.PruningTwice | src/dump/management.rs:81-134 | pruning again deletes nothing more, for every policy |
| Retention.LatestSurvivesIff | src/dump/mod.rs:155-164 | `latest` resolves to the same dump before and after pruning if and only if there is none, or it is among the newest n in time, or, without `retain_recent`, no date rule reaches it |
| Retention.LatestIsNewest | src/dump/mod.rs:155-164 | with timestamps whose text order is time order, retaining any recent dump keeps `latest` |
| Retention.DisagreementMovesLatest | src/dump/mod.rs:155-164 | when n completed dumps are newer in time than the one `latest` names, retaining n deletes it |
| Retention.MixedOffsetsMoveLatest | src/dump/management.rs:73-77 | two timestamps with different offsets are such a case |

## Left out

- Decimal128, ObjectId, NaN and infinities; `Mongo` gives no meaning to a field that holds an array, and the filter results exclude arrays on the way to a field. Doubles are reals of which it is assumed that integral ones are fixed points of the rounding and others lie below 2^53.
- Equality of embedded documents: here it regards the order of fields, as the server does; the source's in-memory comparison does not.
- It is assumed that no condition holds a literal that is a lone quote character (src/transform/condition.rs:368-369 would slice out of range): the `Readable` preconditions say so.
- Byte offsets into UTF-8 text: the scanner works on characters; all operators and separators are ASCII, so positions correspond.
- `compute`, which keeps whole documents of the same traversal, is not modelled.
- The choice of the single database that a subset runs over (src/cli.rs:631-656), and include and exclude filters in `DumpPlan`: the results are about one database without collection filters.
- DumpPlan.KeysAreDistinct: takes colon-free collection names, unique ids, and ids that render differently when they differ as assumptions; the source checks none of them.
- Reference declarations marked not-null are recorded by the source but never consulted; `NullReferencePullsIn` shows what that means for null values.
- WorkerPool.RunPool: an item's work is one atomic step on a cell of its own, so items are assumed not to share a collection or a blob; panics of a worker are not modelled.
- DumpRun.Run: dumping one collection is a parameter here, which `DumpAndRestore` fills in; the metadata file, dump id, hooks and logging are left out.
- The storage: `DumpAndRestore` takes it that a restore reads back the blobs and metadata the dump wrote.
- Read errors of a stream, gzip, spool files, the writer's destructor and the storage backends; the panic of an uploader thread.
- MultipartWriter.Link.Send: a channel here takes a number of messages and then no more; its capacity, and blocking, are the matter of `UploadProtocol`.
- MultipartWriter.StreamingMultipartWriter.FinishUpload: takes the joined result of the uploader as a parameter; `Upload` composes it with the receive loop run afterwards, and `UploadProtocol` with every interleaving.
- MultipartWriter.StreamingMultipartWriter.Abort: waiting for the uploader to end is left to `UploadProtocol`.
- RestoreItem.RestoreCollection: whether metadata, drop, ensure and each index creation succeed are answers given in advance.
- A whole-batch failure of `insert_many` (a lost connection): the default sink never reports one.
- Parsing the configuration of error exclusions and of everything else.
- Bson.SetPathIsSetSegments: `set_path` changes the document in place in the source; here it is a function from the document to the changed one.
- Inheritance.ReferencesStayConsistent: asks for no conditions and at most one entry of the referring collection; `ReferenceStaysIff`, `RepeatedReferrerStaysIff`, `ReplacedRuleStaysIff` and `TwoSourcesStayIff` say exactly what happens otherwise. Rules with dynamic parameters or a type override, of which only name and static parameters are inherited, are not among the results on references.
- CollectionDump.DumpedReferenceHolds: asks that the two sides hold identical values; the server also matches numbers of different types, which a transformer may tell apart.
- Retention: unreadable metadata appears in a listing as an unknown dump with no timestamp, which is a value of the listing here; storage listing order is taken as given.
- Transformers, hashing, dynamic parameter resolution, noise, previews, the command line, listing, showing and diffing: not modelled.
