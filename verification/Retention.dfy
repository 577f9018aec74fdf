/**
 Which dumps a retention policy deletes, and why pruning agrees with the way `latest` is
 resolved.
 */
module Retention {
  import opened Wrappers
  import opened StableSort
  import opened Text

  datatype DumpStatus = InProgress | Done | Failed | Unknown

  datatype DumpMetadata = DumpMetadata(id: string, status: DumpStatus, createdAt: string)

  datatype Policy = Policy(
    retainRecent: Option<nat>,
    retainFor: Option<int>,
    beforeDate: Option<int>,
    pruneFailed: bool,
    pruneUnsafe: bool)

  /** Parsing of an RFC 3339 timestamp (section 5.6) to a point in time. */
  type Clock = string -> Option<int>

  const EPOCH: int := 0

  function CreatedAt(clock: Clock, m: DumpMetadata): int {
    match clock(m.createdAt)
    case Some(at) => at
    case None => EPOCH
  }

  /** The order `created_at` gives: newest first. */
  function NewestFirst(clock: Clock): (DumpMetadata, DumpMetadata) -> bool {
    (a: DumpMetadata, b: DumpMetadata) => CreatedAt(clock, a) > CreatedAt(clock, b)
  }

  /** The order the text of the timestamps gives: greatest first. */
  function GreatestTextFirst(): (DumpMetadata, DumpMetadata) -> bool {
    (a: DumpMetadata, b: DumpMetadata) => Precedes(b.createdAt, a.createdAt)
  }

  function IsDone(): DumpMetadata -> bool {
    (m: DumpMetadata) => m.status == Done
  }

  function Completed(dumps: seq<DumpMetadata>): seq<DumpMetadata> {
    Filter(IsDone(), dumps)
  }

  /** The completed dumps, newest first. */
  function ByAge(clock: Clock, dumps: seq<DumpMetadata>): seq<DumpMetadata> {
    Sort(NewestFirst(clock), Completed(dumps))
  }

  function Min(a: nat, b: nat): nat {
    if a <= b then a else b
  }

  /** The `n` newest completed dumps, or all of them when there are fewer. */
  function Newest(clock: Clock, dumps: seq<DumpMetadata>, n: nat): seq<DumpMetadata> {
    var done := ByAge(clock, dumps);
    done[..Min(n, |done|)]
  }

  function Ids(dumps: seq<DumpMetadata>): seq<string> {
    seq(|dumps|, i requires 0 <= i < |dumps| => dumps[i].id)
  }

  /** The ids no rule may touch. */
  function Protected(clock: Clock, dumps: seq<DumpMetadata>, policy: Policy): seq<string> {
    match policy.retainRecent
    case Some(n) => Ids(Newest(clock, dumps, n))
    case None => []
  }

  /** Too old for one of the date rules. */
  predicate Expired(clock: Clock, policy: Policy, now: int, m: DumpMetadata) {
    (policy.retainFor.Some? && CreatedAt(clock, m) < now - policy.retainFor.value) ||
    (policy.beforeDate.Some? && CreatedAt(clock, m) < policy.beforeDate.value)
  }

  /** Some rule asks for this dump to go. */
  predicate Candidate(clock: Clock, policy: Policy, now: int, m: DumpMetadata) {
    (policy.retainRecent.Some? && m.status == Done) || Expired(clock, policy, now, m) ||
    (policy.pruneFailed && m.status == Failed) ||
    (policy.pruneUnsafe && (m.status == Unknown || m.status == InProgress))
  }

  function Doomed(clock: Clock, dumps: seq<DumpMetadata>, policy: Policy, now: int): DumpMetadata -> bool {
    (m: DumpMetadata) => m.id !in Protected(clock, dumps, policy) && Candidate(clock, policy, now, m)
  }

  /** The ids a policy deletes, in order of their text. */
  function Selected(clock: Clock, dumps: seq<DumpMetadata>, policy: Policy, now: int): seq<string> {
    Sort(TextOrder(), Ids(Filter(Doomed(clock, dumps, policy, now), dumps)))
  }

  method NewestIds(clock: Clock, dumps: seq<DumpMetadata>, n: nat) returns (ids: set<string>)
    ensures forall id :: id in ids <==> id in Ids(Newest(clock, dumps, n))
  {
    var done := ByAge(clock, dumps);
    ids := {};
    for i := 0 to Min(n, |done|)
      invariant forall id :: id in ids <==> id in Ids(done[..i])
    {
      assert done[..i + 1] == done[..i] + [done[i]];
      IdsAppend(done[..i], done[i]);
      ids := ids + {done[i].id};
    }
  }

  method SelectForDeletion(clock: Clock, dumps: seq<DumpMetadata>, policy: Policy, now: int) returns (del: seq<string>)
    ensures del == Selected(clock, dumps, policy, now)
  {
    var spared: set<string> := {};
    if policy.retainRecent.Some? {
      spared := NewestIds(clock, dumps, policy.retainRecent.value);
    }
    ghost var doomed := Doomed(clock, dumps, policy, now);
    del := [];
    for i := 0 to |dumps|
      invariant del == Ids(Filter(doomed, dumps[..i]))
    {
      var m := dumps[i];
      assert dumps[..i + 1] == dumps[..i] + [m];
      FilterAppend(doomed, dumps[..i], [m]);
      if m.id in spared {
        continue;
      }
      var created := CreatedAt(clock, m);
      var candidate := false;
      if policy.retainRecent.Some? && m.status == Done {
        candidate := true;
      }
      if policy.retainFor.Some? && created < now - policy.retainFor.value {
        candidate := true;
      }
      if policy.beforeDate.Some? && created < policy.beforeDate.value {
        candidate := true;
      }
      if policy.pruneFailed && m.status == Failed {
        candidate := true;
      }
      if policy.pruneUnsafe && (m.status == Unknown || m.status == InProgress) {
        candidate := true;
      }
      if candidate {
        IdsAppend(Filter(doomed, dumps[..i]), m);
        del := del + [m.id];
      }
    }
    assert dumps[..|dumps|] == dumps;
    del := Sort(TextOrder(), del);
  }

  lemma IdsAppend(dumps: seq<DumpMetadata>, m: DumpMetadata)
    ensures Ids(dumps + [m]) == Ids(dumps) + [m.id]
  {
  }

  // Deleting.

  function NotIn(ids: seq<string>): DumpMetadata -> bool {
    (m: DumpMetadata) => m.id !in ids
  }

  /** The listing once some ids are deleted. */
  function Without(dumps: seq<DumpMetadata>, ids: seq<string>): seq<DumpMetadata> {
    Filter(NotIn(ids), dumps)
  }

  class Storage {
    var dumps: seq<DumpMetadata>
    /** Ids the backend refuses to delete. */
    const stuck: set<string>

    constructor (dumps: seq<DumpMetadata>, stuck: set<string>)
      ensures this.dumps == dumps && this.stuck == stuck
    {
      this.dumps, this.stuck := dumps, stuck;
    }

    method Delete(id: string) returns (outcome: Result<(), string>)
      modifies this
      ensures outcome.Success? <==> id !in stuck
      ensures dumps == if outcome.Success? then Without(old(dumps), [id]) else old(dumps)
    {
      if id in stuck {
        return Failure(id);
      }
      dumps := Without(dumps, [id]);
      outcome := Success(());
    }

    /**
     A dry run reports and deletes nothing. Otherwise the selected ids go in order, up to the
     first one the backend refuses.
     */
    method Prune(clock: Clock, policy: Policy, now: int, dryRun: bool) returns (outcome: Result<seq<string>, string>)
      modifies this
      ensures var ids := Selected(clock, old(dumps), policy, now);
              match outcome
              case Success(del) => del == ids && dumps == if dryRun then old(dumps) else Without(old(dumps), ids)
              case Failure(id) =>
                !dryRun && exists k | 0 <= k < |ids| ::
                  id == ids[k] && ids[k] in stuck && (forall j | 0 <= j < k :: ids[j] !in stuck) &&
                  dumps == Without(old(dumps), ids[..k])
    {
      hide Selected, Without;
      var listing := dumps;
      var ids := SelectForDeletion(clock, listing, policy, now);
      WithoutNothing(listing);
      if !dryRun {
        for k := 0 to |ids|
          invariant dumps == Without(listing, ids[..k])
          invariant forall j | 0 <= j < k :: ids[j] !in stuck
        {
          assert ids[..k + 1] == ids[..k] + [ids[k]];
          WithoutBoth(listing, ids[..k], ids[k]);
          var deleted := Delete(ids[k]);
          if deleted.Failure? {
            return Failure(ids[k]);
          }
        }
        assert ids[..|ids|] == ids;
      }
      outcome := Success(ids);
    }
  }

  lemma WithoutNothing(dumps: seq<DumpMetadata>)
    ensures Without(dumps, []) == dumps
  {
    FilterAll(NotIn([]), dumps);
  }

  lemma WithoutBoth(dumps: seq<DumpMetadata>, ids: seq<string>, id: string)
    ensures Without(Without(dumps, ids), [id]) == Without(dumps, ids + [id])
  {
    FilterTwice(NotIn([id]), NotIn(ids), NotIn(ids + [id]), dumps);
  }

  // The most recently created completed dump.

  function Latest(dumps: seq<DumpMetadata>): Option<DumpMetadata> {
    var done := Sort(GreatestTextFirst(), Completed(dumps));
    if done == [] then None else Some(done[0])
  }

  // What a policy keeps.

  predicate DistinctIds(dumps: seq<DumpMetadata>) {
    forall i, j | 0 <= i < j < |dumps| :: dumps[i].id != dumps[j].id
  }

  /** What is left once the policy is applied. */
  function Kept(clock: Clock, dumps: seq<DumpMetadata>, policy: Policy, now: int): seq<DumpMetadata> {
    Without(dumps, Selected(clock, dumps, policy, now))
  }

  lemma {:induction false} FilterDistinct(keep: DumpMetadata -> bool, dumps: seq<DumpMetadata>)
    requires DistinctIds(dumps)
    ensures DistinctIds(Filter(keep, dumps))
  {
    if dumps != [] {
      var rest := dumps[1..];
      FilterDistinct(keep, rest);
      FilterHolds(keep, rest);
      var kept := Filter(keep, rest);
      assert forall m <- kept :: m in rest;
      assert forall j | 0 <= j < |kept| :: kept[j] in kept;
    }
  }

  lemma {:induction false} SortDistinct(before: (DumpMetadata, DumpMetadata) -> bool, dumps: seq<DumpMetadata>)
    requires DistinctIds(dumps)
    ensures DistinctIds(Sort(before, dumps))
  {
    if dumps != [] {
      var rest := dumps[1..];
      SortDistinct(before, rest);
      SortHolds(before, rest);
      assert forall m <- Sort(before, rest) :: m in rest;
      InsertDistinct(before, dumps[0], Sort(before, rest));
    }
  }

  lemma {:induction false} InsertDistinct(before: (DumpMetadata, DumpMetadata) -> bool, x: DumpMetadata,
                                          dumps: seq<DumpMetadata>)
    requires DistinctIds(dumps) && forall m <- dumps :: m.id != x.id
    ensures DistinctIds(Insert(before, x, dumps))
  {
    if dumps != [] && before(dumps[0], x) {
      var rest := dumps[1..];
      InsertDistinct(before, x, rest);
      InsertHolds(before, x, rest);
      var out := Insert(before, x, rest);
      forall j | 0 <= j < |out|
        ensures out[j].id != dumps[0].id
      {
        assert out[j] in multiset(out);
        assert out[j] == x || out[j] in rest;
        assert dumps[0] in dumps;
      }
    }
  }

  lemma AgesAreDistinct(clock: Clock, dumps: seq<DumpMetadata>)
    requires DistinctIds(dumps)
    ensures DistinctIds(ByAge(clock, dumps))
  {
    FilterDistinct(IsDone(), dumps);
    SortDistinct(NewestFirst(clock), Completed(dumps));
  }

  lemma AgesHold(clock: Clock, dumps: seq<DumpMetadata>)
    ensures |ByAge(clock, dumps)| == |Completed(dumps)|
    ensures forall m :: m in ByAge(clock, dumps) <==> m in dumps && m.status == Done
  {
    SortHolds(NewestFirst(clock), Completed(dumps));
    FilterHolds(IsDone(), dumps);
    forall m
      ensures m in ByAge(clock, dumps) <==> m in dumps && m.status == Done
    {
      assert m in ByAge(clock, dumps) <==> m in Completed(dumps);
    }
  }

  /** A dump is deleted exactly when no rule protects it and some rule asks for it. */
  lemma SelectedIff(clock: Clock, dumps: seq<DumpMetadata>, policy: Policy, now: int, id: string)
    ensures id in Selected(clock, dumps, policy, now) <==>
            id !in Protected(clock, dumps, policy) &&
            exists m <- dumps :: m.id == id && Candidate(clock, policy, now, m)
  {
    hide Protected, Candidate, Sort, Filter;
    var doomed := Filter(Doomed(clock, dumps, policy, now), dumps);
    FilterHolds(Doomed(clock, dumps, policy, now), dumps);
    SortHolds(TextOrder(), Ids(doomed));
    if id in Ids(doomed) {
      var i :| 0 <= i < |doomed| && Ids(doomed)[i] == id;
      assert doomed[i] in doomed;
    }
    if m :| m in dumps && m.id == id && Doomed(clock, dumps, policy, now)(m) {
      assert m in doomed;
      var i :| 0 <= i < |doomed| && doomed[i] == m;
      assert Ids(doomed)[i] == id;
    }
  }

  /** The same, rule by rule: what makes a dump go, as the policy states it. */
  lemma DeletedIff(clock: Clock, dumps: seq<DumpMetadata>, policy: Policy, now: int, id: string)
    ensures id in Selected(clock, dumps, policy, now) <==>
            id !in Protected(clock, dumps, policy) &&
            exists m <- dumps ::
              m.id == id &&
              var created := (match clock(m.createdAt) case Some(at) => at case None => 0);
              match policy
              case Policy(recent, age, date, failed, unsafe) =>
                (recent.Some? && m.status == Done) || (age.Some? && created < now - age.value) ||
                (date.Some? && created < date.value) || (failed && m.status == Failed) ||
                (unsafe && (m.status == InProgress || m.status == Unknown))
  {
    hide Protected, Sort, Filter, Selected;
    SelectedIff(clock, dumps, policy, now, id);
  }

  /** `retain_for` alone deletes exactly the dumps created before `now - age`; one that cannot be dated is from 1970. */
  lemma RetainForMeans(clock: Clock, dumps: seq<DumpMetadata>, age: int, now: int, id: string)
    ensures id in Selected(clock, dumps, Policy(None, Some(age), None, false, false), now) <==>
            exists m <- dumps :: m.id == id && (match clock(m.createdAt) case Some(at) => at case None => 0) < now - age
  {
    hide Sort, Filter, Selected;
    DeletedIff(clock, dumps, Policy(None, Some(age), None, false, false), now, id);
  }

  /** `before_date` alone deletes exactly the dumps created before it. */
  lemma BeforeDateMeans(clock: Clock, dumps: seq<DumpMetadata>, date: int, now: int, id: string)
    ensures id in Selected(clock, dumps, Policy(None, None, Some(date), false, false), now) <==>
            exists m <- dumps :: m.id == id && (match clock(m.createdAt) case Some(at) => at case None => 0) < date
  {
    hide Sort, Filter, Selected;
    DeletedIff(clock, dumps, Policy(None, None, Some(date), false, false), now, id);
  }

  /** `prune_failed` deletes the failed dumps, `prune_unsafe` the unfinished and unknown ones, whatever their age. */
  lemma PruneFlagsMean(clock: Clock, dumps: seq<DumpMetadata>, failed: bool, unsafe: bool, now: int, id: string)
    ensures id in Selected(clock, dumps, Policy(None, None, None, failed, unsafe), now) <==>
            exists m <- dumps ::
              m.id == id &&
              match m.status
              case Failed => failed
              case InProgress => unsafe
              case Unknown => unsafe
              case Done => false
  {
    hide Sort, Filter, Selected;
    DeletedIff(clock, dumps, Policy(None, None, None, failed, unsafe), now, id);
  }

  /** The date rules are closed downwards: with a dump they reach, every older one goes that nothing protects. */
  lemma OlderGoesToo(clock: Clock, dumps: seq<DumpMetadata>, policy: Policy, now: int, m: DumpMetadata,
                     older: DumpMetadata)
    requires policy.retainRecent == None && !policy.pruneFailed && !policy.pruneUnsafe
    requires DistinctIds(dumps) && m in dumps && m.id in Selected(clock, dumps, policy, now)
    requires older in dumps && CreatedAt(clock, older) <= CreatedAt(clock, m)
    ensures older.id in Selected(clock, dumps, policy, now)
  {
    hide Sort, Filter, Selected, DistinctIds;
    SelectedIff(clock, dumps, policy, now, m.id);
    SelectedIff(clock, dumps, policy, now, older.id);
    forall x <- dumps | x.id == m.id
      ensures x == m
    {
      SameDump(dumps, x, m);
    }
  }

  /** The same under any policy: where a date rule reaches a dump, no unprotected older one is left. */
  lemma NoOlderLeft(clock: Clock, dumps: seq<DumpMetadata>, policy: Policy, now: int, m: DumpMetadata,
                    older: DumpMetadata)
    requires (policy.retainFor.Some? && CreatedAt(clock, m) < now - policy.retainFor.value) ||
             (policy.beforeDate.Some? && CreatedAt(clock, m) < policy.beforeDate.value)
    requires older in dumps && CreatedAt(clock, older) <= CreatedAt(clock, m)
    requires older.id !in Protected(clock, dumps, policy)
    ensures older.id in Selected(clock, dumps, policy, now)
  {
    hide Sort, Filter, Selected, Protected;
    SelectedIff(clock, dumps, policy, now, older.id);
  }

  /** The ids come in order, each once. */
  lemma SelectedInOrder(clock: Clock, dumps: seq<DumpMetadata>, policy: Policy, now: int)
    requires DistinctIds(dumps)
    ensures var ids := Selected(clock, dumps, policy, now);
            forall i, j | 0 <= i < j < |ids| :: Precedes(ids[i], ids[j])
  {
    hide Protected, Candidate;
    var doomed := Filter(Doomed(clock, dumps, policy, now), dumps);
    var ids := Selected(clock, dumps, policy, now);
    TextIsOrdered();
    SortIsSorted(TextOrder(), Ids(doomed));
    SortHolds(TextOrder(), Ids(doomed));
    FilterDistinct(Doomed(clock, dumps, policy, now), dumps);
    forall i, j | 0 <= i < j < |ids|
      ensures Precedes(ids[i], ids[j])
    {
      PrecedesOrNot(ids[i], ids[j]);
      if ids[i] == ids[j] {
        Twice(ids, i, j);
        Once(Ids(doomed), ids[i]);
        assert false;
      }
    }
  }

  lemma TextIsOrdered()
    ensures Ordering(TextOrder())
  {
    forall a, b | TextOrder()(a, b)
      ensures !TextOrder()(b, a)
    {
      PrecedesOneWay(a, b);
    }
    forall a, b, c | TextOrder()(a, c)
      ensures TextOrder()(a, b) || TextOrder()(b, c)
    {
      PrecedesBetween(a, b, c);
    }
  }

  lemma Twice(s: seq<string>, i: nat, j: nat)
    requires i < j < |s| && s[i] == s[j]
    ensures multiset(s)[s[i]] >= 2
  {
    assert s == s[..j] + [s[j]] + s[j + 1..];
    assert s[..j][i] == s[i];
  }

  lemma Once(s: seq<string>, x: string)
    requires forall i, j | 0 <= i < j < |s| :: s[i] != s[j]
    ensures multiset(s)[x] <= 1
  {
    if s != [] {
      var rest := s[1..];
      assert s == [s[0]] + rest;
      assert forall i | 0 <= i < |rest| :: rest[i] == s[i + 1];
      Once(rest, x);
      if x in rest {
        var k :| 0 <= k < |rest| && rest[k] == x;
        assert s[k + 1] == x;
      }
    }
  }

  /** What pruning leaves: the dumps that are not deleted. */
  lemma KeptMeans(clock: Clock, dumps: seq<DumpMetadata>, policy: Policy, now: int, m: DumpMetadata)
    ensures m in Kept(clock, dumps, policy, now) <==> m in dumps && m.id !in Selected(clock, dumps, policy, now)
  {
    hide Sort, Selected;
    FilterHolds(NotIn(Selected(clock, dumps, policy, now)), dumps);
  }

  lemma KeptCompleted(dumps: seq<DumpMetadata>, ids: seq<string>)
    ensures Completed(Without(dumps, ids)) == Without(Completed(dumps), ids)
  {
    var both := (m: DumpMetadata) => m.status == Done && m.id !in ids;
    FilterTwice(IsDone(), NotIn(ids), both, dumps);
    FilterTwice(NotIn(ids), IsDone(), both, dumps);
  }

  /** What is left, by age, is what was there by age without the deleted ones. */
  lemma KeptByAge(clock: Clock, dumps: seq<DumpMetadata>, ids: seq<string>)
    ensures ByAge(clock, Without(dumps, ids)) == Without(ByAge(clock, dumps), ids)
  {
    KeptCompleted(dumps, ids);
    SortThenFilter(NewestFirst(clock), NotIn(ids), Completed(dumps));
  }

  /** With `retain_recent`, the completed dumps that are left are exactly the newest `n`. */
  lemma KeepsTheNewest(clock: Clock, dumps: seq<DumpMetadata>, policy: Policy, now: int)
    requires DistinctIds(dumps) && policy.retainRecent.Some?
    ensures ByAge(clock, Kept(clock, dumps, policy, now)) == Newest(clock, dumps, policy.retainRecent.value)
  {
    hide Sort, Filter, Selected;
    var ids := Selected(clock, dumps, policy, now);
    var all, newest := ByAge(clock, dumps), Newest(clock, dumps, policy.retainRecent.value);
    var rest := all[|newest|..];
    KeptByAge(clock, dumps, ids);
    AgesHold(clock, dumps);
    AgesAreDistinct(clock, dumps);
    forall i | 0 <= i < |all|
      ensures all[i].id in ids <==> i >= |newest|
    {
      assert all[i] in all;
      SelectedIff(clock, dumps, policy, now, all[i].id);
      if i < |newest| {
        assert Ids(newest)[i] == all[i].id;
      }
    }
    assert all == newest + rest;
    assert forall m <- newest :: NotIn(ids)(m);
    assert forall m <- rest :: !NotIn(ids)(m);
    FilterAppend(NotIn(ids), newest, rest);
    FilterAll(NotIn(ids), newest);
    FilterNone(NotIn(ids), rest);
  }

  /** It keeps as many completed dumps as it can up to `n`, and none that is older than one it deletes. */
  lemma RetentionKeepsRecent(clock: Clock, dumps: seq<DumpMetadata>, policy: Policy, now: int)
    requires DistinctIds(dumps) && policy.retainRecent.Some?
    ensures var n, all := policy.retainRecent.value, |Completed(dumps)|;
            |Completed(Kept(clock, dumps, policy, now))| == if n <= all then n else all
    ensures forall k <- Completed(Kept(clock, dumps, policy, now)), d <- Completed(dumps) |
              d.id in Selected(clock, dumps, policy, now) :: CreatedAt(clock, k) >= CreatedAt(clock, d)
  {
    hide Sort, Filter, Selected, Sorted, CreatedAt, DistinctIds;
    var kept, ids := Kept(clock, dumps, policy, now), Selected(clock, dumps, policy, now);
    var all, newest := ByAge(clock, dumps), ByAge(clock, kept);
    KeepsTheNewest(clock, dumps, policy, now);
    AgesHold(clock, dumps);
    AgesHold(clock, kept);
    SortIsSorted(NewestFirst(clock), Completed(dumps));
    FilterHolds(NotIn(ids), dumps);
    FilterHolds(IsDone(), dumps);
    FilterHolds(IsDone(), kept);
    forall k <- Completed(kept), d <- Completed(dumps) | d.id in ids
      ensures CreatedAt(clock, k) >= CreatedAt(clock, d)
    {
      assert k in newest && d in all && d !in kept && d !in newest;
    }
  }

  /** Pruning again at the same time deletes nothing more. */
  lemma PruningTwice(clock: Clock, dumps: seq<DumpMetadata>, policy: Policy, now: int)
    requires DistinctIds(dumps)
    ensures Selected(clock, Kept(clock, dumps, policy, now), policy, now) == []
  {
    hide Sort, Filter, Candidate;
    var kept := Kept(clock, dumps, policy, now);
    if policy.retainRecent.Some? {
      KeepsTheNewest(clock, dumps, policy, now);
      assert Newest(clock, kept, policy.retainRecent.value) == ByAge(clock, kept);
    }
    assert Protected(clock, kept, policy) == Protected(clock, dumps, policy);
    FilterHolds(NotIn(Selected(clock, dumps, policy, now)), dumps);
    forall m <- kept
      ensures !Doomed(clock, kept, policy, now)(m)
    {
      SelectedIff(clock, dumps, policy, now, m.id);
    }
    FilterNone(Doomed(clock, kept, policy, now), kept);
    assert Ids([]) == [];
    SortHolds(TextOrder(), []);
  }

  // Agreement with `latest`.

  lemma TextIsAnOrder()
    ensures Ordering(GreatestTextFirst())
  {
    forall a: DumpMetadata, b: DumpMetadata
      ensures Precedes(b.createdAt, a.createdAt) ==> !Precedes(a.createdAt, b.createdAt)
    {
      PrecedesOneWay(b.createdAt, a.createdAt);
    }
    forall a: DumpMetadata, b: DumpMetadata, c: DumpMetadata | Precedes(c.createdAt, a.createdAt)
      ensures Precedes(b.createdAt, a.createdAt) || Precedes(c.createdAt, b.createdAt)
    {
      PrecedesBetween(c.createdAt, b.createdAt, a.createdAt);
    }
  }

  /** The completed dumps in the order `latest` looks at them. */
  function ByText(dumps: seq<DumpMetadata>): seq<DumpMetadata> {
    Sort(GreatestTextFirst(), Completed(dumps))
  }

  lemma KeptByText(dumps: seq<DumpMetadata>, ids: seq<string>)
    ensures ByText(Without(dumps, ids)) == Without(ByText(dumps), ids)
  {
    KeptCompleted(dumps, ids);
    TextIsAnOrder();
    SortThenFilter(GreatestTextFirst(), NotIn(ids), Completed(dumps));
  }

  lemma SameDump(dumps: seq<DumpMetadata>, a: DumpMetadata, b: DumpMetadata)
    requires DistinctIds(dumps) && a in dumps && b in dumps && a.id == b.id
    ensures a == b
  {
    var i :| 0 <= i < |dumps| && dumps[i] == a;
    var j :| 0 <= j < |dumps| && dumps[j] == b;
    assert i == j;
  }

  /** The policy keeps this completed dump. */
  predicate Spares(clock: Clock, dumps: seq<DumpMetadata>, policy: Policy, now: int, m: DumpMetadata) {
    match policy.retainRecent
    case Some(n) => m in Newest(clock, dumps, n)
    case None => !Expired(clock, policy, now, m)
  }

  lemma InIds(ms: seq<DumpMetadata>, all: seq<DumpMetadata>, m: DumpMetadata)
    requires DistinctIds(all) && ms <= all && m in all
    ensures m.id in Ids(ms) <==> m in ms
  {
    if m in ms {
      var i :| 0 <= i < |ms| && ms[i] == m;
      assert Ids(ms)[i] == m.id;
    }
    if m.id in Ids(ms) {
      var i :| 0 <= i < |ms| && Ids(ms)[i] == m.id;
      assert ms[i] in ms && all[i] == ms[i] && all[i] in all;
      SameDump(all, all[i], m);
    }
  }

  lemma CompletedIsSelectedIff(clock: Clock, dumps: seq<DumpMetadata>, policy: Policy, now: int, m: DumpMetadata)
    requires DistinctIds(dumps) && m in dumps && m.status == Done
    ensures m.id in Selected(clock, dumps, policy, now) <==> !Spares(clock, dumps, policy, now, m)
  {
    hide Sort, Filter, Selected, Expired, DistinctIds;
    SelectedIff(clock, dumps, policy, now, m.id);
    forall x <- dumps | x.id == m.id
      ensures x == m
    {
      SameDump(dumps, x, m);
    }
    AgesHold(clock, dumps);
    AgesAreDistinct(clock, dumps);
    if policy.retainRecent.Some? {
      InIds(Newest(clock, dumps, policy.retainRecent.value), ByAge(clock, dumps), m);
    }
  }

  /**
   Pruning leaves `latest` as it was exactly when there is no completed dump, or the one that
   `latest` names is among the newest `n` in time, or, without `retain_recent`, no date rule
   reaches it.
   */
  lemma LatestSurvivesIff(clock: Clock, dumps: seq<DumpMetadata>, policy: Policy, now: int)
    requires DistinctIds(dumps)
    ensures Latest(Kept(clock, dumps, policy, now)) == Latest(dumps) <==>
            (Latest(dumps).Some? ==> Spares(clock, dumps, policy, now, Latest(dumps).value))
  {
    hide Sort, Selected, Spares, DistinctIds;
    var ids, all := Selected(clock, dumps, policy, now), ByText(dumps);
    KeptByText(dumps, ids);
    if all != [] {
      SortHolds(GreatestTextFirst(), Completed(dumps));
      FilterHolds(IsDone(), dumps);
      assert all[0] in all;
      CompletedIsSelectedIff(clock, dumps, policy, now, all[0]);
      FilterHolds(NotIn(ids), all);
      var left := Filter(NotIn(ids), all);
      assert left != [] ==> left[0] in left;
    }
  }

  /** All timestamps are written so that the order of the text is the order in time. */
  ghost predicate TextIsTime(clock: Clock, dumps: seq<DumpMetadata>) {
    forall a <- dumps, b <- dumps :: Precedes(a.createdAt, b.createdAt) <==> CreatedAt(clock, a) < CreatedAt(clock, b)
  }

  /** With such timestamps `latest` is the newest dump: retaining any recent dump keeps it. */
  lemma LatestIsNewest(clock: Clock, dumps: seq<DumpMetadata>, policy: Policy, now: int)
    requires DistinctIds(dumps) && TextIsTime(clock, Completed(dumps)) && policy.retainRecent.Some?
    ensures Latest(Kept(clock, dumps, policy, now)) == Latest(dumps) <==>
            (Latest(dumps).Some? ==> policy.retainRecent.value >= 1)
  {
    AgreeingOrders(GreatestTextFirst(), NewestFirst(clock), Completed(dumps));
    hide Sort, Selected, DistinctIds;
    LatestSurvivesIff(clock, dumps, policy, now);
    var n := policy.retainRecent.value;
    assert Latest(dumps).Some? && n >= 1 ==> Newest(clock, dumps, n)[0] == Latest(dumps).value;
  }

  /** Completed dumps that are newer in time than the one `latest` names. */
  function Overtaking(clock: Clock, dumps: seq<DumpMetadata>, latest: DumpMetadata): set<DumpMetadata> {
    set m | m in Completed(dumps) && CreatedAt(clock, m) > CreatedAt(clock, latest)
  }

  /** When text and time disagree so far that `n` dumps are newer than `latest`, retaining `n` deletes it. */
  lemma DisagreementMovesLatest(clock: Clock, dumps: seq<DumpMetadata>, policy: Policy, now: int)
    requires DistinctIds(dumps) && Latest(dumps).Some? && policy.retainRecent.Some?
    requires |Overtaking(clock, dumps, Latest(dumps).value)| >= policy.retainRecent.value
    ensures Latest(dumps).value.id in Selected(clock, dumps, policy, now)
    ensures Latest(Kept(clock, dumps, policy, now)) != Latest(dumps)
  {
    hide Sort, Filter, Selected, DistinctIds;
    var latest, n := Latest(dumps).value, policy.retainRecent.value;
    SortHolds(GreatestTextFirst(), Completed(dumps));
    FilterHolds(IsDone(), dumps);
    assert ByText(dumps)[0] in ByText(dumps);
    LatestSurvivesIff(clock, dumps, policy, now);
    CompletedIsSelectedIff(clock, dumps, policy, now, latest);
    if latest in Newest(clock, dumps, n) {
      OvertakingFit(clock, dumps, latest, n);
    }
  }

  /** A dump among the newest `n` is overtaken by fewer than `n`. */
  lemma OvertakingFit(clock: Clock, dumps: seq<DumpMetadata>, m: DumpMetadata, n: nat)
    requires m in Newest(clock, dumps, n)
    ensures |Overtaking(clock, dumps, m)| < n
  {
    hide Sort, Filter;
    var all := ByAge(clock, dumps);
    var i :| 0 <= i < |Newest(clock, dumps, n)| && Newest(clock, dumps, n)[i] == m;
    SortIsSorted(NewestFirst(clock), Completed(dumps));
    SortHolds(NewestFirst(clock), Completed(dumps));
    var before := set x | x in all[..i];
    assert forall k | i <= k < |all| :: !NewestFirst(clock)(all[k], all[i]);
    forall x <- Overtaking(clock, dumps, m)
      ensures x in before
    {
      assert x in all;
      var j :| 0 <= j < |all| && all[j] == x;
      assert all[..i][j] == x;
    }
    FewElements(all[..i]);
    Fewer(Overtaking(clock, dumps, m), before);
  }

  lemma FewElements(s: seq<DumpMetadata>)
    ensures |set x | x in s| <= |s|
  {
    if s != [] {
      FewElements(s[1..]);
      assert (set x | x in s) == {s[0]} + set x | x in s[1..];
    }
  }

  lemma Fewer(a: set<DumpMetadata>, b: set<DumpMetadata>)
    requires a <= b
    ensures |a| <= |b|
  {
    assert a + (b - a) == b;
  }

  /** Two timestamps with different offsets are enough: retaining one dump deletes the one `latest` named. */
  lemma MixedOffsetsMoveLatest(clock: Clock, a: DumpMetadata, b: DumpMetadata, now: int)
    requires a.id != b.id && a.status == Done && a.createdAt == "2025-01-01T00:00:00+05:00"
    requires b.status == Done && b.createdAt == "2024-12-31T23:00:00Z"
    requires CreatedAt(clock, a) < CreatedAt(clock, b)
    ensures var policy := Policy(Some(1), None, None, false, false);
            Latest([a, b]) == Some(a) && Latest(Kept(clock, [a, b], policy, now)) == Some(b)
  {
    hide Sort, Filter, Selected, Precedes;
    var policy, dumps := Policy(Some(1), None, None, false, false), [a, b];
    assert Precedes(b.createdAt, a.createdAt) && !Precedes(a.createdAt, b.createdAt) by {
      hide *;
      OffsetsDisagree();
    }
    TwoCompleted(a, b);
    SortPair(GreatestTextFirst(), a, b);
    SortPair(NewestFirst(clock), a, b);
    assert Newest(clock, dumps, 1) == [b];
    CompletedIsSelectedIff(clock, dumps, policy, now, a);
    CompletedIsSelectedIff(clock, dumps, policy, now, b);
    KeptByText(dumps, Selected(clock, dumps, policy, now));
    SecondLeft(a, b, Selected(clock, dumps, policy, now));
  }

  lemma SecondLeft(a: DumpMetadata, b: DumpMetadata, ids: seq<string>)
    requires a.id in ids && b.id !in ids
    ensures Without([a, b], ids) == [b]
  {
    assert [a, b][1..] == [b] && [b][1..] == [];
    assert Filter(NotIn(ids), []) == [];
    assert Filter(NotIn(ids), [b]) == [b];
  }

  lemma OffsetsDisagree()
    ensures Precedes("2024-12-31T23:00:00Z", "2025-01-01T00:00:00+05:00")
    ensures !Precedes("2025-01-01T00:00:00+05:00", "2024-12-31T23:00:00Z")
  {
    hide *;
    var a, b := "2025-01-01T00:00:00+05:00", "2024-12-31T23:00:00Z";
    assert a[..3] == b[..3] && a[3] == '5' && b[3] == '4';
    PrecedesAt(b, a, 3);
    PrecedesAt(a, b, 3);
  }

  lemma TwoCompleted(a: DumpMetadata, b: DumpMetadata)
    requires a.status == Done && b.status == Done
    ensures Completed([a, b]) == [a, b]
  {
    FilterAll(IsDone(), [a, b]);
  }

  lemma SortPair(before: (DumpMetadata, DumpMetadata) -> bool, a: DumpMetadata, b: DumpMetadata)
    ensures Sort(before, [a, b]) == if before(b, a) then [b, a] else [a, b]
  {
    assert [a, b][1..] == [b] && [b][1..] == [];
    assert Sort(before, []) == [];
    assert Insert(before, b, []) == [b];
    assert Sort(before, [b]) == [b];
    assert Insert(before, a, []) == [a];
  }
}
