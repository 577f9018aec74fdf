/** Include and exclude lists of names, as the dump and the restore options use them. */
module NameFilter {
  /** Exclusion wins; an empty inclusion list includes every other name. */
  predicate Included(name: string, only: seq<string>, never: seq<string>) {
    name !in never && (only == [] || name in only)
  }
}
