/**
 Inserting documents in batches with tolerated failures: a server call that stops at its first
 failure is resumed right after it. The batches leave the collection as inserting the documents
 one at a time would.
 */
module BatchInsert {
  import opened Wrappers
  import opened Bson
  import opened ErrorExclusions

  /** Whether a collection holding these documents refuses another one, and why. */
  type Rule<!D> = (seq<D>, D) -> Option<InsertError>

  /** The in-memory sink's rule: an `_id` can stand in a collection only once. */
  function DuplicateId(have: seq<Document>, d: Document): Option<InsertError> {
    if Get(d, "_id").Some? && exists e <- have :: Get(e, "_id") == Get(d, "_id")
    then Some(DUPLICATE_ID)
    else None
  }

  /** What one batched insert did: the collection after it, how many went in, and which failed. */
  datatype Attempted<D> = Attempted(have: seq<D>, inserted: nat, failures: seq<(nat, InsertError)>)

  /** Ordered inserts stop at the first failure; unordered ones try every document. */
  function Attempt<D>(rule: Rule<D>, have: seq<D>, docs: seq<D>, ordered: bool, index: nat := 0): Attempted<D>
    decreases |docs|
  {
    if docs == [] then Attempted(have, 0, [])
    else
      match rule(have, docs[0])
      case None =>
        var a := Attempt(rule, have + [docs[0]], docs[1..], ordered, index + 1);
        a.(inserted := a.inserted + 1)
      case Some(e) =>
        if ordered then Attempted(have, 0, [(index, e)])
        else
          var a := Attempt(rule, have, docs[1..], ordered, index + 1);
          a.(failures := [(index, e)] + a.failures)
  }

  function Before<D>(inserted: nat, failures: seq<(nat, InsertError)>, a: Attempted<D>): Attempted<D> {
    Attempted(a.have, inserted + a.inserted, failures + a.failures)
  }

  /** How one document moves an attempt along. */
  lemma AttemptStep<D>(rule: Rule<D>, have: seq<D>, docs: seq<D>, ordered: bool, index: nat, inserted: nat,
                       failures: seq<(nat, InsertError)>)
    requires docs != []
    ensures var whole := Before(inserted, failures, Attempt(rule, have, docs, ordered, index));
            match rule(have, docs[0])
            case None => whole == Before(inserted + 1, failures,
                                         Attempt(rule, have + [docs[0]], docs[1..], ordered, index + 1))
            case Some(e) =>
              if ordered then whole == Attempted(have, inserted, failures + [(index, e)])
              else whole == Before(inserted, failures + [(index, e)],
                                   Attempt(rule, have, docs[1..], ordered, index + 1))
  {
    if rule(have, docs[0]).Some? && !ordered {
      var e := rule(have, docs[0]).value;
      var later := Attempt(rule, have, docs[1..], ordered, index + 1).failures;
      assert failures + ([(index, e)] + later) == (failures + [(index, e)]) + later;
    }
  }

  lemma AttemptNothing<D>(rule: Rule<D>, have: seq<D>, docs: seq<D>, ordered: bool, index: nat, inserted: nat,
                          failures: seq<(nat, InsertError)>)
    ensures Before(0, [], Attempt(rule, have, docs, ordered, index)) == Attempt(rule, have, docs, ordered, index)
    ensures Before(inserted, failures, Attempt(rule, have, [], ordered, index)) == Attempted(have, inserted, failures)
  {
    assert [] + Attempt(rule, have, docs, ordered, index).failures ==
           Attempt(rule, have, docs, ordered, index).failures;
    assert failures + [] == failures;
  }

  class Collection<!D> {
    const rule: Rule<D>
    var documents: seq<D>

    constructor (rule: Rule<D>, documents: seq<D>)
      ensures this.rule == rule && this.documents == documents
    {
      this.rule, this.documents := rule, documents;
    }

    method Insert(d: D) returns (failed: Option<InsertError>)
      modifies this
      ensures failed == rule(old(documents), d)
      ensures documents == if failed == None then old(documents) + [d] else old(documents)
    {
      failed := rule(documents, d);
      if failed == None {
        documents := documents + [d];
      }
    }

    method InsertMany(docs: seq<D>, ordered: bool) returns (inserted: nat, failures: seq<(nat, InsertError)>)
      modifies this
      ensures Attempted(documents, inserted, failures) == Attempt(rule, old(documents), docs, ordered)
    {
      hide Attempt, Before;
      inserted, failures := 0, [];
      assert docs[0..] == docs;
      AttemptNothing(rule, documents, docs, ordered, 0, 0, []);
      for i := 0 to |docs|
        invariant Attempt(rule, old(documents), docs, ordered) ==
          Before(inserted, failures, Attempt(rule, documents, docs[i..], ordered, i))
      {
        assert docs[i..][1..] == docs[i + 1..];
        AttemptStep(rule, documents, docs[i..], ordered, i, inserted, failures);
        var failed := Insert(docs[i]);
        match failed {
          case None => inserted := inserted + 1;
          case Some(e) =>
            failures := failures + [(i, e)];
            if ordered {
              return;
            }
        }
      }
      assert docs[|docs|..] == [];
      AttemptNothing(rule, documents, docs, ordered, |docs|, inserted, failures);
    }
  }

  // The meaning of restoring documents with some errors tolerated.

  /** Documents settled so far: in the collection, tolerated failures, or the error that ended it. */
  datatype Settled<D> = Settled(have: seq<D>, inserted: nat, skipped: nat, error: Option<InsertError>)

  function Plus<D>(inserted: nat, skipped: nat, s: Settled<D>): Settled<D> {
    s.(inserted := inserted + s.inserted, skipped := skipped + s.skipped)
  }

  /** One document at a time: insert it, skip a tolerated failure, stop at any other. */
  function SettleInOrder<D>(rule: Rule<D>, excluded: InsertError -> bool, have: seq<D>, docs: seq<D>): Settled<D>
    decreases |docs|
  {
    if docs == [] then Settled(have, 0, 0, None)
    else
      match rule(have, docs[0])
      case None => Plus(1, 0, SettleInOrder(rule, excluded, have + [docs[0]], docs[1..]))
      case Some(e) =>
        if excluded(e) then Plus(0, 1, SettleInOrder(rule, excluded, have, docs[1..]))
        else Settled(have, 0, 0, Some(e))
  }

  /** How many failures are tolerated before the first that is not. */
  function Tolerated(excluded: InsertError -> bool, failures: seq<(nat, InsertError)>): nat {
    if failures == [] || !excluded(failures[0].1) then 0 else 1 + Tolerated(excluded, failures[1..])
  }

  function FirstIntolerable(excluded: InsertError -> bool, failures: seq<(nat, InsertError)>): Option<InsertError> {
    if failures == [] then None
    else if excluded(failures[0].1) then FirstIntolerable(excluded, failures[1..])
    else Some(failures[0].1)
  }

  /** All documents tried at once; the failures are judged afterwards. */
  function SettleUnordered<D>(rule: Rule<D>, excluded: InsertError -> bool, have: seq<D>, docs: seq<D>): Settled<D> {
    var a := Attempt(rule, have, docs, false);
    Settled(a.have, a.inserted, Tolerated(excluded, a.failures), FirstIntolerable(excluded, a.failures))
  }

  function Settle<D>(rule: Rule<D>, excluded: InsertError -> bool, ordered: bool, have: seq<D>,
                     docs: seq<D>): Settled<D> {
    if ordered then SettleInOrder(rule, excluded, have, docs) else SettleUnordered(rule, excluded, have, docs)
  }

  /** An ordered call settles the documents up to its failure, and what follows it can be settled from there. */
  lemma {:induction false} OrderedAttemptSettles<D>(rule: Rule<D>, excluded: InsertError -> bool, have: seq<D>,
                                                    docs: seq<D>, index: nat)
    ensures var a := Attempt(rule, have, docs, true, index);
            if a.failures == [] then SettleInOrder(rule, excluded, have, docs) == Settled(a.have, a.inserted, 0, None)
            else
              var (at, e) := a.failures[0];
              |a.failures| == 1 && index <= at < index + |docs| &&
              SettleInOrder(rule, excluded, have, docs) ==
                if excluded(e) then Plus(a.inserted, 1, SettleInOrder(rule, excluded, a.have, docs[at - index + 1..]))
                else Settled(a.have, a.inserted, 0, Some(e))
    decreases |docs|
  {
    if docs != [] && rule(have, docs[0]) == None {
      OrderedAttemptSettles(rule, excluded, have + [docs[0]], docs[1..], index + 1);
      var a := Attempt(rule, have + [docs[0]], docs[1..], true, index + 1);
      if a.failures != [] {
        var at := a.failures[0].0;
        assert docs[1..][at - (index + 1) + 1..] == docs[at - index + 1..];
      }
    }
  }

  /** The failures of one call: tolerated ones are counted, up to the first that is not. */
  method JudgeFailures(failures: seq<(nat, InsertError)>, excluded: InsertError -> bool)
    returns (skipped: nat, error: Option<InsertError>)
    ensures skipped == Tolerated(excluded, failures) && error == FirstIntolerable(excluded, failures)
  {
    skipped := 0;
    assert failures[0..] == failures;
    for i := 0 to |failures|
      invariant skipped + Tolerated(excluded, failures[i..]) == Tolerated(excluded, failures)
      invariant FirstIntolerable(excluded, failures[i..]) == FirstIntolerable(excluded, failures)
    {
      assert failures[i..][1..] == failures[i + 1..];
      if !excluded(failures[i].1) {
        return skipped, Some(failures[i].1);
      }
      skipped := skipped + 1;
    }
    error := None;
  }

  /** The restore's batch insert: what it settles is what the ordering mode means, for any rule and tolerance. */
  method InsertBatch<D>(coll: Collection<D>, batch: seq<D>, ordered: bool, excluded: InsertError -> bool,
                        inserted0: nat, skipped0: nat)
    returns (inserted: nat, skipped: nat, error: Option<InsertError>)
    modifies coll
    ensures Settled(coll.documents, inserted, skipped, error) ==
            Plus(inserted0, skipped0, Settle(coll.rule, excluded, ordered, old(coll.documents), batch))
  {
    hide Attempt, SettleInOrder;
    inserted, skipped := inserted0, skipped0;
    var start := 0;
    assert batch[0..] == batch;
    while start < |batch|
      invariant start <= |batch| && (!ordered ==> start == 0 && coll.documents == old(coll.documents))
      invariant !ordered ==> inserted == inserted0 && skipped == skipped0
      invariant ordered ==>
        (Plus(inserted0, skipped0, SettleInOrder(coll.rule, excluded, old(coll.documents), batch)) ==
         Plus(inserted, skipped, SettleInOrder(coll.rule, excluded, coll.documents, batch[start..])))
      decreases |batch| - start
    {
      OrderedAttemptSettles(coll.rule, excluded, coll.documents, batch[start..], 0);
      var n, failures := coll.InsertMany(batch[start..], ordered);
      inserted := inserted + n;
      if failures == [] {
        return inserted, skipped, None;
      }
      var more;
      more, error := JudgeFailures(failures, excluded);
      skipped := skipped + more;
      if error.Some? {
        return;
      }
      if ordered {
        assert batch[start..][failures[0].0 + 1..] == batch[start + failures[0].0 + 1..];
        start := start + failures[0].0 + 1;
      } else {
        return inserted, skipped, None;
      }
    }
    assert batch[|batch|..] == [];
    SettleNothing(coll.rule, excluded, coll.documents);
    error := None;
  }

  lemma SettleNothing<D>(rule: Rule<D>, excluded: InsertError -> bool, have: seq<D>)
    ensures SettleInOrder(rule, excluded, have, []) == Settled(have, 0, 0, None)
    ensures Attempt(rule, have, [], false) == Attempted(have, 0, [])
  {
  }

  // What the two modes have in common, and what batching changes: for any rule and any tolerance.

  /**
   Trying every document and judging afterwards comes to the same error and the same number of
   tolerated failures as stopping at the first intolerable one. Without such an error it is the
   same altogether; with one, only documents behind it are put in besides.
   */
  lemma {:induction false} UnorderedJudgesAlike<D>(rule: Rule<D>, excluded: InsertError -> bool, have: seq<D>,
                                                   docs: seq<D>, index: nat)
    ensures var a, s := Attempt(rule, have, docs, false, index), SettleInOrder(rule, excluded, have, docs);
            FirstIntolerable(excluded, a.failures) == s.error && Tolerated(excluded, a.failures) == s.skipped &&
            s.have <= a.have && s.inserted <= a.inserted &&
            (s.error == None ==> a.have == s.have && a.inserted == s.inserted)
    decreases |docs|
  {
    if docs != [] {
      match rule(have, docs[0]) {
        case None => UnorderedJudgesAlike(rule, excluded, have + [docs[0]], docs[1..], index + 1);
        case Some(e) =>
          UnorderedJudgesAlike(rule, excluded, have, docs[1..], index + 1);
          UnorderedGrows(rule, have, docs[1..], index + 1);
          var later := Attempt(rule, have, docs[1..], false, index + 1).failures;
          assert ([(index, e)] + later)[1..] == later;
      }
    }
  }

  lemma {:induction false} UnorderedGrows<D>(rule: Rule<D>, have: seq<D>, docs: seq<D>, index: nat)
    ensures have <= Attempt(rule, have, docs, false, index).have
    decreases |docs|
  {
    if docs != [] {
      UnorderedGrows(rule, if rule(have, docs[0]) == None then have + [docs[0]] else have, docs[1..], index + 1);
    }
  }

  /** Both write modes report the same error and the same number of skipped documents, and agree where there is none. */
  lemma ModesAgree<D>(rule: Rule<D>, excluded: InsertError -> bool, ordered: bool, have: seq<D>, docs: seq<D>)
    ensures var r, s := Settle(rule, excluded, ordered, have, docs), SettleInOrder(rule, excluded, have, docs);
            r.error == s.error && r.skipped == s.skipped && s.have <= r.have && s.inserted <= r.inserted &&
            (s.error == None ==> r == s)
  {
    UnorderedJudgesAlike(rule, excluded, have, docs, 0);
  }

  /** Going on with more documents, unless an error has ended it. */
  function Then<D>(rule: Rule<D>, excluded: InsertError -> bool, s: Settled<D>, docs: seq<D>): Settled<D> {
    if s.error.Some? then s else Plus(s.inserted, s.skipped, SettleInOrder(rule, excluded, s.have, docs))
  }

  /** Settling documents in two portions is settling them in one. */
  lemma {:induction false} SettleConcat<D>(rule: Rule<D>, excluded: InsertError -> bool, have: seq<D>, a: seq<D>,
                                           b: seq<D>)
    ensures SettleInOrder(rule, excluded, have, a + b) ==
            Then(rule, excluded, SettleInOrder(rule, excluded, have, a), b)
    decreases |a|
  {
    if a == [] {
      assert a + b == b;
    } else {
      assert (a + b)[1..] == a[1..] + b;
      match rule(have, a[0]) {
        case None => SettleConcat(rule, excluded, have + [a[0]], a[1..], b);
        case Some(e) =>
          if excluded(e) {
            SettleConcat(rule, excluded, have, a[1..], b);
          }
      }
    }
  }

  // With every failure tolerated.

  ghost predicate AllTolerated<D(!new)>(rule: Rule<D>, excluded: InsertError -> bool) {
    forall have: seq<D>, d: D :: rule(have, d).Some? ==> excluded(rule(have, d).value)
  }

  /** The loop a reader has in mind: insert each document unless the collection refuses it. */
  function OneByOne<D>(rule: Rule<D>, have: seq<D>, docs: seq<D>): seq<D>
    decreases |docs|
  {
    if docs == [] then have
    else OneByOne(rule, if rule(have, docs[0]) == None then have + [docs[0]] else have, docs[1..])
  }

  lemma {:induction false} ToleratedInOrder<D(!new)>(rule: Rule<D>, excluded: InsertError -> bool, have: seq<D>,
                                                     docs: seq<D>)
    requires AllTolerated(rule, excluded)
    ensures var s := SettleInOrder(rule, excluded, have, docs);
            s.have == OneByOne(rule, have, docs) && s.error == None && s.inserted + s.skipped == |docs|
            && |s.have| == |have| + s.inserted
    decreases |docs|
  {
    if docs != [] {
      ToleratedInOrder(rule, excluded, if rule(have, docs[0]) == None then have + [docs[0]] else have, docs[1..]);
    }
  }

  /** When every failure is tolerated, both modes do what one insert at a time does, and settle each document once. */
  lemma ToleratedSettles<D(!new)>(rule: Rule<D>, excluded: InsertError -> bool, ordered: bool, have: seq<D>,
                                  docs: seq<D>)
    requires AllTolerated(rule, excluded)
    ensures var s := Settle(rule, excluded, ordered, have, docs);
            s.have == OneByOne(rule, have, docs) && s.error == None && s.inserted + s.skipped == |docs| &&
            |s.have| == |have| + s.inserted
  {
    ToleratedInOrder(rule, excluded, have, docs);
    ModesAgree(rule, excluded, ordered, have, docs);
  }

  lemma {:induction false} OneByOneConcat<D>(rule: Rule<D>, have: seq<D>, a: seq<D>, b: seq<D>)
    ensures OneByOne(rule, have, a + b) == OneByOne(rule, OneByOne(rule, have, a), b)
    decreases |a|
  {
    if a == [] {
      assert a + b == b;
    } else {
      assert (a + b)[1..] == a[1..] + b;
      OneByOneConcat(rule, if rule(have, a[0]) == None then have + [a[0]] else have, a[1..], b);
    }
  }

  /** Tolerating duplicate keys is what it takes, and enough, for a collection that refuses only repeated ids. */
  lemma DuplicatesTolerated(x: Exclusions, collection: string)
    ensures AllTolerated(DuplicateId, For(x, collection)) <==>
              11000 in x.globalErrorCodes || "_id_" in x.globalIndexNames ||
              exists c <- x.collections ::
                c.collection == collection && (11000 in c.errorCodes || "_id_" in c.indexNames)
  {
    var excluded := For(x, collection);
    ToleratedIffDuplicateIs(excluded);
    var tolerates := (c: CollectionExclusion) => 11000 in c.errorCodes || "_id_" in c.indexNames;
    assert forall c <- x.collections :: Lists(c.errorCodes, c.indexNames, DUPLICATE_ID) <==> tolerates(c);
  }

  lemma ToleratedIffDuplicateIs(excluded: InsertError -> bool)
    ensures AllTolerated(DuplicateId, excluded) <==> excluded(DUPLICATE_ID)
    ensures NoneTolerated(DuplicateId, excluded) <==> !excluded(DUPLICATE_ID)
  {
    var d := Single("_id", Null);
    assert d in [d];
    assert DuplicateId([d], d) == Some(DUPLICATE_ID);
  }

  // Without any failure.

  /** No document is refused when its turn comes. */
  predicate AllGoIn<D>(rule: Rule<D>, have: seq<D>, docs: seq<D>)
    decreases |docs|
  {
    docs == [] || (rule(have, docs[0]) == None && AllGoIn(rule, have + [docs[0]], docs[1..]))
  }

  lemma {:induction false} AllGoInConcat<D>(rule: Rule<D>, have: seq<D>, a: seq<D>, b: seq<D>)
    ensures AllGoIn(rule, have, a + b) <==> AllGoIn(rule, have, a) && AllGoIn(rule, have + a, b)
    decreases |a|
  {
    if a == [] {
      assert a + b == b && have + a == have;
    } else {
      assert (a + b)[1..] == a[1..] + b && (have + [a[0]]) + a[1..] == have + a;
      AllGoInConcat(rule, have + [a[0]], a[1..], b);
    }
  }

  lemma {:induction false} InOrderAll<D>(rule: Rule<D>, excluded: InsertError -> bool, have: seq<D>, docs: seq<D>)
    ensures var s := SettleInOrder(rule, excluded, have, docs);
            |s.have| == |have| + s.inserted && s.inserted <= |docs| &&
            if AllGoIn(rule, have, docs) then s == Settled(have + docs, |docs|, 0, None) else s.inserted < |docs|
    decreases |docs|
  {
    if docs == [] {
      assert have + docs == have;
    } else if rule(have, docs[0]) == None {
      InOrderAll(rule, excluded, have + [docs[0]], docs[1..]);
      assert (have + [docs[0]]) + docs[1..] == have + docs;
    } else {
      InOrderAll(rule, excluded, have, docs[1..]);
    }
  }

  lemma {:induction false} UnorderedAll<D>(rule: Rule<D>, have: seq<D>, docs: seq<D>, index: nat)
    ensures var a := Attempt(rule, have, docs, false, index);
            |a.have| == |have| + a.inserted && a.inserted + |a.failures| == |docs| &&
            (AllGoIn(rule, have, docs) <==> a.failures == []) &&
            (AllGoIn(rule, have, docs) ==> a.have == have + docs)
    decreases |docs|
  {
    if docs == [] {
      assert have + docs == have;
    } else if rule(have, docs[0]) == None {
      UnorderedAll(rule, have + [docs[0]], docs[1..], index + 1);
      assert (have + [docs[0]]) + docs[1..] == have + docs;
    } else {
      UnorderedAll(rule, have, docs[1..], index + 1);
    }
  }

  /** Whatever is tolerated, in both modes: the documents are all put in exactly when none of them is refused. */
  lemma SettlesAllIff<D>(rule: Rule<D>, excluded: InsertError -> bool, ordered: bool, have: seq<D>, docs: seq<D>)
    ensures var s := Settle(rule, excluded, ordered, have, docs);
            |s.have| == |have| + s.inserted && s.inserted <= |docs| &&
            (s.inserted == |docs| <==> AllGoIn(rule, have, docs)) &&
            (AllGoIn(rule, have, docs) ==> s == Settled(have + docs, |docs|, 0, None))
  {
    hide AllGoIn, Attempt, SettleInOrder;
    if ordered {
      InOrderAll(rule, excluded, have, docs);
    } else {
      UnorderedAll(rule, have, docs, 0);
    }
  }

  /** No error the rule gives is tolerated. */
  ghost predicate NoneTolerated<D(!new)>(rule: Rule<D>, excluded: InsertError -> bool) {
    forall have: seq<D>, d: D :: rule(have, d).Some? ==> !excluded(rule(have, d).value)
  }

  lemma {:induction false} IntolerantInOrder<D(!new)>(rule: Rule<D>, excluded: InsertError -> bool, have: seq<D>,
                                                      docs: seq<D>)
    requires NoneTolerated(rule, excluded)
    ensures SettleInOrder(rule, excluded, have, docs).error == None <==> AllGoIn(rule, have, docs)
    decreases |docs|
  {
    if docs != [] && rule(have, docs[0]) == None {
      IntolerantInOrder(rule, excluded, have + [docs[0]], docs[1..]);
    }
  }

  /** When nothing is tolerated, a batch is without an error exactly when no document is refused. */
  lemma IntolerantSettles<D(!new)>(rule: Rule<D>, excluded: InsertError -> bool, ordered: bool, have: seq<D>,
                                   docs: seq<D>)
    requires NoneTolerated(rule, excluded)
    ensures Settle(rule, excluded, ordered, have, docs).error == None <==> AllGoIn(rule, have, docs)
  {
    IntolerantInOrder(rule, excluded, have, docs);
    ModesAgree(rule, excluded, ordered, have, docs);
  }

  /** The ids that are present are pairwise different. */
  ghost predicate IdsApart(docs: seq<Document>) {
    forall i, j | 0 <= i < j < |docs| :: Get(docs[i], "_id").Some? ==> Get(docs[i], "_id") != Get(docs[j], "_id")
  }

  lemma RefusedIff(have: seq<Document>, d: Document)
    requires IdsApart(have)
    ensures DuplicateId(have, d) == None <==> IdsApart(have + [d])
  {
    var all := have + [d];
    assert all[|have|] == d && forall i | 0 <= i < |have| :: all[i] == have[i] && all[i] in have;
    if DuplicateId(have, d).Some? {
      var e :| e in have && Get(e, "_id") == Get(d, "_id");
      var i :| 0 <= i < |have| && have[i] == e;
      assert all[i] == e;
    }
  }

  lemma ApartPrefix(a: seq<Document>, b: seq<Document>)
    requires a <= b && IdsApart(b)
    ensures IdsApart(a)
  {
  }

  /** A collection that refuses only repeated ids takes all documents exactly when their ids are apart. */
  lemma {:induction false} AllGoInIffApart(have: seq<Document>, docs: seq<Document>)
    requires IdsApart(have)
    ensures AllGoIn(DuplicateId, have, docs) <==> IdsApart(have + docs)
    decreases |docs|
  {
    hide IdsApart, DuplicateId;
    if docs == [] {
      assert have + docs == have;
    } else {
      var next := have + [docs[0]];
      assert next + docs[1..] == have + docs;
      RefusedIff(have, docs[0]);
      if IdsApart(next) {
        AllGoInIffApart(next, docs[1..]);
      } else if IdsApart(have + docs) {
        ApartPrefix(next, have + docs);
        assert false;
      }
    }
  }

  /** Restoring again what is already there changes nothing: every document with an `_id` is a duplicate. */
  lemma {:induction false} RestoringTwice(have: seq<Document>, docs: seq<Document>)
    requires forall d <- docs :: Get(d, "_id").Some?
    ensures var once := OneByOne(DuplicateId, have, docs);
            have <= once && OneByOne(DuplicateId, once, docs) == once
    decreases |docs|
  {
    Grows(have, docs);
    AllRefused(OneByOne(DuplicateId, have, docs), docs);
  }

  ghost predicate Present(have: seq<Document>, d: Document) {
    exists e <- have :: Get(e, "_id") == Get(d, "_id")
  }

  lemma {:induction false} Grows(have: seq<Document>, docs: seq<Document>)
    requires forall d <- docs :: Get(d, "_id").Some?
    ensures have <= OneByOne(DuplicateId, have, docs)
    ensures forall d <- docs :: Present(OneByOne(DuplicateId, have, docs), d)
    decreases |docs|
  {
    if docs != [] {
      var next := if DuplicateId(have, docs[0]) == None then have + [docs[0]] else have;
      Grows(next, docs[1..]);
      assert docs[0] in docs;
      assert Present(next, docs[0]) by {
        if DuplicateId(have, docs[0]) == None {
          assert docs[0] in next;
        }
      }
      assert forall d <- docs :: d == docs[0] || d in docs[1..];
    }
  }

  lemma {:induction false} AllRefused(have: seq<Document>, docs: seq<Document>)
    requires forall d <- docs :: Get(d, "_id").Some? && Present(have, d)
    ensures OneByOne(DuplicateId, have, docs) == have
    decreases |docs|
  {
    if docs != [] {
      assert docs[0] in docs && forall d <- docs[1..] :: d in docs;
      AllRefused(have, docs[1..]);
    }
  }
}
