/** Which insert errors a restore tolerates, by code or index name, everywhere or per collection. */
module ErrorExclusions {
  import opened Wrappers

  datatype InsertError = InsertError(code: Option<int>, indexName: Option<string>)

  /** The error of an `_id` that is already there. */
  const DUPLICATE_ID := InsertError(Some(11000), Some("_id_"))

  datatype CollectionExclusion = CollectionExclusion(collection: string, errorCodes: seq<int>, indexNames: seq<string>)

  datatype Exclusions = Exclusions(
    globalErrorCodes: seq<int>,
    globalIndexNames: seq<string>,
    collections: seq<CollectionExclusion>)

  /** What is configured by default: nothing is tolerated. */
  const NO_EXCLUSIONS := Exclusions([], [], [])

  predicate Lists(codes: seq<int>, names: seq<string>, e: InsertError) {
    (e.code.Some? && e.code.value in codes) || (e.indexName.Some? && e.indexName.value in names)
  }

  predicate Excludes(x: Exclusions, collection: string, e: InsertError) {
    Lists(x.globalErrorCodes, x.globalIndexNames, e) ||
    exists c <- x.collections :: c.collection == collection && Lists(c.errorCodes, c.indexNames, e)
  }

  method IsExcluded(x: Exclusions, collection: string, e: InsertError) returns (excluded: bool)
    ensures excluded <==> Excludes(x, collection, e)
    ensures excluded <==>
              (e.code.Some? && e.code.value in x.globalErrorCodes) ||
              (e.indexName.Some? && e.indexName.value in x.globalIndexNames) ||
              exists c <- x.collections ::
                c.collection == collection &&
                ((e.code.Some? && e.code.value in c.errorCodes) ||
                 (e.indexName.Some? && e.indexName.value in c.indexNames))
  {
    if Lists(x.globalErrorCodes, x.globalIndexNames, e) {
      return true;
    }
    for i := 0 to |x.collections|
      invariant !exists k | 0 <= k < i ::
        x.collections[k].collection == collection && Lists(x.collections[k].errorCodes, x.collections[k].indexNames, e)
    {
      var c := x.collections[i];
      if c.collection == collection {
        if e.code.Some? && e.code.value in c.errorCodes {
          return true;
        }
        if e.indexName.Some? && e.indexName.value in c.indexNames {
          return true;
        }
      }
    }
    excluded := false;
  }

  /** The tolerance a restore of one collection works with. */
  function For(x: Exclusions, collection: string): InsertError -> bool {
    (e: InsertError) => Excludes(x, collection, e)
  }
}
