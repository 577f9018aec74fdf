/**
 Worker threads claiming items from a shared counter until a stop flag is seen: the pool that
 both `dump` and `restore` run with `--jobs`. Every interleaving of its atomic steps is covered,
 with the relaxed loads of the stop flag free to read a stale `false`.
 */
module WorkerPool {
  import opened Wrappers

  /**
   The job: each item works on a cell of its own (its collection, its blobs) and yields a result;
   a result that `halts` raises the stop flag.
   */
  datatype Job<!C, !T> = Job(work: (nat, C) -> (C, T), halts: T -> bool, cells: seq<C>) {
    function Outcome(i: nat): T
      requires i < |cells|
    {
      work(i, cells[i]).1
    }

    function FinalCell(i: nat): C
      requires i < |cells|
    {
      work(i, cells[i]).0
    }
  }

  datatype Worker<T> =
    | Checking
    | Claiming
    | Running(item: nat)
    | Computed(item: nat, result: T)
    | Storing(item: nat, result: T)
    | Done

  datatype State<C, T> = State(next: nat, stop: bool, cells: seq<C>, slots: seq<Option<T>>, workers: seq<Worker<T>>)

  function Start<C, T>(job: Job<C, T>, workers: nat): State<C, T> {
    State(0, false, job.cells, seq(|job.cells|, i => None), seq(workers, i => Checking))
  }

  /** One step of worker `w`; `seen` is what a load of the stop flag returns to it. */
  function Step<C, T>(job: Job<C, T>, s: State<C, T>, w: nat, seen: bool): Option<State<C, T>> {
    if w >= |s.workers| || |s.cells| != |job.cells| || |s.slots| != |job.cells| then None
    else
      match s.workers[w]
      case Checking =>
        if seen && !s.stop then None else Some(s.(workers := s.workers[w := if seen then Done else Claiming]))
      case Claiming =>
        Some(s.(next := s.next + 1, workers := s.workers[w := if s.next >= |job.cells| then Done else Running(s.next)]))
      case Running(i) =>
        if i >= |s.cells| then None
        else
          var (cell, result) := job.work(i, s.cells[i]);
          Some(s.(cells := s.cells[i := cell], workers := s.workers[w := Computed(i, result)]))
      case Computed(i, result) =>
        Some(s.(stop := s.stop || job.halts(result), workers := s.workers[w := Storing(i, result)]))
      case Storing(i, result) =>
        if i >= |s.slots| then None
        else Some(s.(slots := s.slots[i := Some(result)], workers := s.workers[w := Checking]))
      case Done => None
  }

  type Schedule = seq<(nat, bool)>

  /** The state after a schedule; none when it makes a worker do what it cannot do. */
  function Run<C, T>(job: Job<C, T>, workers: nat, schedule: Schedule): Option<State<C, T>> {
    if schedule == [] then Some(Start(job, workers))
    else
      match Run(job, workers, schedule[..|schedule| - 1])
      case None => None
      case Some(s) => Step(job, s, schedule[|schedule| - 1].0, schedule[|schedule| - 1].1)
  }

  predicate AllDone<C, T>(s: State<C, T>) {
    forall w | 0 <= w < |s.workers| :: s.workers[w].Done?
  }

  // The invariant.

  predicate Holds<T>(w: Worker<T>, i: nat) {
    match w
    case Running(j) => j == i
    case Computed(j, _) => j == i
    case Storing(j, _) => j == i
    case _ => false
  }

  ghost predicate Held<C, T>(s: State<C, T>, i: nat) {
    exists w | 0 <= w < |s.workers| :: Holds(s.workers[w], i)
  }

  /** What is true of one item: not claimed, in the hands of one worker, or finished. */
  ghost predicate ItemInv<C, T>(job: Job<C, T>, s: State<C, T>, i: nat)
    requires i < |job.cells| == |s.cells| == |s.slots|
  {
    (i >= s.next ==> s.slots[i] == None && s.cells[i] == job.cells[i] && !Held(s, i)) &&
    (i < s.next && s.slots[i] == None ==> Held(s, i)) &&
    (s.slots[i].Some? ==> s.slots[i].value == job.Outcome(i) && s.cells[i] == job.FinalCell(i) && !Held(s, i))
  }

  ghost predicate WorkerInv<C, T>(job: Job<C, T>, s: State<C, T>, w: nat)
    requires |job.cells| == |s.cells| == |s.slots| && w < |s.workers|
  {
    match s.workers[w]
    case Running(i) => i < s.next && i < |job.cells| && s.slots[i] == None && s.cells[i] == job.cells[i]
    case Computed(i, r) => i < s.next && i < |job.cells| && s.slots[i] == None && s.cells[i] == job.FinalCell(i) &&
      r == job.Outcome(i)
    case Storing(i, r) => i < s.next && i < |job.cells| && s.slots[i] == None && s.cells[i] == job.FinalCell(i) &&
      r == job.Outcome(i)
    case Done => s.stop || s.next >= |job.cells|
    case _ => true
  }

  ghost predicate HaltBefore<C, T>(job: Job<C, T>, n: nat) {
    exists i | 0 <= i < n && i < |job.cells| :: job.halts(job.Outcome(i))
  }

  /** No two workers hold the same item. */
  ghost predicate OneHolder<C, T>(s: State<C, T>) {
    forall v, w, i |
      0 <= v < |s.workers| && 0 <= w < |s.workers| && Holds(s.workers[v], i) && Holds(s.workers[w], i) :: v == w
  }

  ghost predicate Inv<C, T>(job: Job<C, T>, s: State<C, T>) {
    |job.cells| == |s.cells| == |s.slots| && OneHolder(s) &&
    (forall i | 0 <= i < |job.cells| :: ItemInv(job, s, i)) &&
    (forall w | 0 <= w < |s.workers| :: WorkerInv(job, s, w)) &&
    (s.stop ==> HaltBefore(job, s.next))
  }

  lemma StartInv<C, T>(job: Job<C, T>, workers: nat)
    ensures Inv(job, Start(job, workers))
  {
  }

  /** Worker `w` alone changed, from `old` to `now`. */
  ghost predicate OneMoved<C, T>(s: State<C, T>, t: State<C, T>, w: nat) {
    w < |s.workers| == |t.workers| && forall v | 0 <= v < |s.workers| && v != w :: t.workers[v] == s.workers[v]
  }

  lemma HeldAfter<C, T>(s: State<C, T>, t: State<C, T>, w: nat)
    requires OneMoved(s, t, w) && OneHolder(s)
    ensures forall i: nat | !Holds(s.workers[w], i) && !Holds(t.workers[w], i) :: Held(t, i) <==> Held(s, i)
    ensures forall i: nat | Holds(t.workers[w], i) :: Held(t, i)
    ensures forall i: nat | Holds(s.workers[w], i) :: Held(s, i)
    ensures forall i: nat | Holds(s.workers[w], i) && !Holds(t.workers[w], i) :: !Held(t, i)
  {
    forall i: nat | !Holds(s.workers[w], i) && !Holds(t.workers[w], i)
      ensures Held(t, i) <==> Held(s, i)
    {
      if Held(s, i) {
        var v :| 0 <= v < |s.workers| && Holds(s.workers[v], i);
        assert Holds(t.workers[v], i);
      }
      if Held(t, i) {
        var v :| 0 <= v < |t.workers| && Holds(t.workers[v], i);
        assert Holds(s.workers[v], i);
      }
    }
  }

  /** A worker that holds no more than it did, or an item nobody held, keeps holders apart. */
  lemma StillOneHolder<C, T>(s: State<C, T>, t: State<C, T>, w: nat)
    requires OneMoved(s, t, w) && OneHolder(s)
    requires forall i: nat | Holds(t.workers[w], i) :: Holds(s.workers[w], i) || !Held(s, i)
    ensures OneHolder(t)
  {
    forall u, v, i | 0 <= u < |t.workers| && 0 <= v < |t.workers| && Holds(t.workers[u], i) && Holds(t.workers[v], i)
      ensures u == v
    {
      assert u != w ==> Holds(s.workers[u], i);
      assert v != w ==> Holds(s.workers[v], i);
    }
  }

  /** A worker that did not move is not disturbed by changes to items it does not hold. */
  lemma OthersUndisturbed<C, T>(job: Job<C, T>, s: State<C, T>, t: State<C, T>, w: nat)
    requires Inv(job, s) && OneMoved(s, t, w) && |t.cells| == |t.slots| == |job.cells|
    requires s.next <= t.next && (s.stop ==> t.stop)
    requires forall i: nat | i < |job.cells| && !Holds(s.workers[w], i) ::
               t.slots[i] == s.slots[i] && t.cells[i] == s.cells[i]
    ensures forall v | 0 <= v < |t.workers| && v != w :: WorkerInv(job, t, v)
  {
    forall v | 0 <= v < |t.workers| && v != w
      ensures WorkerInv(job, t, v)
    {
      assert WorkerInv(job, s, v);
      assert forall i: nat :: Holds(s.workers[v], i) ==> !Holds(s.workers[w], i);
    }
  }

  lemma StepKeepsInv<C, T>(job: Job<C, T>, s: State<C, T>, w: nat, seen: bool)
    requires Inv(job, s) && Step(job, s, w, seen).Some?
    ensures Inv(job, Step(job, s, w, seen).value)
  {
    hide Held;
    var t := Step(job, s, w, seen).value;
    assert WorkerInv(job, s, w) && OneMoved(s, t, w);
    assert s.workers[w].Claiming? && s.next < |job.cells| ==> ItemInv(job, s, s.next);
    HeldAfter(s, t, w);
    StillOneHolder(s, t, w);
    OthersUndisturbed(job, s, t, w);
    assert WorkerInv(job, t, w);
    forall i | 0 <= i < |job.cells|
      ensures ItemInv(job, t, i)
    {
      assert ItemInv(job, s, i);
    }
    if t.stop && !s.stop {
      var i := s.workers[w].item;
      assert job.halts(job.Outcome(i));
    }
  }

  lemma {:induction false} RunKeepsInv<C, T>(job: Job<C, T>, workers: nat, schedule: Schedule)
    requires Run(job, workers, schedule).Some?
    ensures var s := Run(job, workers, schedule).value; Inv(job, s) && |s.workers| == workers
    decreases |schedule|
  {
    if schedule == [] {
      StartInv(job, workers);
    } else {
      hide Inv;
      var last := |schedule| - 1;
      RunKeepsInv(job, workers, schedule[..last]);
      StepKeepsInv(job, Run(job, workers, schedule[..last]).value, schedule[last].0, schedule[last].1);
    }
  }

  // What the stop flag does.

  /** A halting result that is being stored, or has been, has raised the flag. */
  ghost predicate Raised<C, T>(job: Job<C, T>, s: State<C, T>) {
    s.stop ||
    ((forall w | 0 <= w < |s.workers| && s.workers[w].Storing? :: !job.halts(s.workers[w].result)) &&
     (forall i | 0 <= i < |s.slots| && s.slots[i].Some? :: !job.halts(s.slots[i].value)))
  }

  lemma StepKeepsRaised<C, T>(job: Job<C, T>, s: State<C, T>, w: nat, seen: bool)
    requires Raised(job, s) && Step(job, s, w, seen).Some?
    ensures Raised(job, Step(job, s, w, seen).value)
  {
    var t := Step(job, s, w, seen).value;
    if !t.stop {
      assert forall v | 0 <= v < |t.workers| && v != w :: t.workers[v] == s.workers[v];
    }
  }

  /** A halting result in its slot has raised the flag, and a worker that sees the flag claims nothing more. */
  lemma {:induction false} HaltingRaisesFlag<C, T>(job: Job<C, T>, workers: nat, schedule: Schedule)
    requires Run(job, workers, schedule).Some?
    ensures var s := Run(job, workers, schedule).value;
            Raised(job, s) &&
            (forall i | 0 <= i < |s.slots| && s.slots[i].Some? && job.halts(s.slots[i].value) :: s.stop) &&
            forall w: nat | w < |s.workers| && s.workers[w].Checking? && Step(job, s, w, true).Some? ::
              s.stop && Step(job, s, w, true).value == s.(workers := s.workers[w := Done])
    decreases |schedule|
  {
    if schedule != [] {
      var last := |schedule| - 1;
      HaltingRaisesFlag(job, workers, schedule[..last]);
      StepKeepsRaised(job, Run(job, workers, schedule[..last]).value, schedule[last].0, schedule[last].1);
    }
  }

  // What the slots hold when all workers are done.

  /** Items were claimed in order and all claimed ones ran to completion; some were left only after a halting result. */
  ghost predicate CompletedPrefix<C, T>(job: Job<C, T>, slots: seq<Option<T>>, cells: seq<C>, k: nat) {
    k <= |job.cells| == |slots| == |cells| &&
    (forall i | 0 <= i < k :: slots[i] == Some(job.Outcome(i)) && cells[i] == job.FinalCell(i)) &&
    (forall i | k <= i < |job.cells| :: slots[i] == None && cells[i] == job.cells[i]) &&
    (k < |job.cells| ==> HaltBefore(job, k))
  }

  /** Whatever the schedule, the pool ends with the outcomes of a prefix of the items. */
  lemma PoolCompletesPrefix<C, T>(job: Job<C, T>, workers: nat, schedule: Schedule, s: State<C, T>)
    requires workers > 0 && Run(job, workers, schedule) == Some(s) && AllDone(s)
    ensures CompletedPrefix(job, s.slots, s.cells, if s.next < |job.cells| then s.next else |job.cells|)
  {
    RunKeepsInv(job, workers, schedule);
    assert WorkerInv(job, s, 0);
    forall i | 0 <= i < |job.cells|
      ensures if i < s.next then s.slots[i] == Some(job.Outcome(i)) && s.cells[i] == job.FinalCell(i)
              else s.slots[i] == None && s.cells[i] == job.cells[i]
    {
      assert ItemInv(job, s, i);
      assert !Held(s, i);
    }
  }

  // Every schedule comes to an end.

  function Rank<T>(w: Worker<T>): nat {
    match w
    case Checking => 2
    case Claiming => 1
    case Running(_) => 5
    case Computed(_, _) => 4
    case Storing(_, _) => 3
    case Done => 0
  }

  function RankSum<T>(ws: seq<Worker<T>>): nat {
    if ws == [] then 0 else Rank(ws[0]) + RankSum(ws[1..])
  }

  lemma {:induction false} RankSumUpdate<T>(ws: seq<Worker<T>>, w: nat, x: Worker<T>)
    requires w < |ws|
    ensures RankSum(ws[w := x]) == RankSum(ws) - Rank(ws[w]) + Rank(x)
  {
    if w == 0 {
      assert ws[0 := x][1..] == ws[1..];
    } else {
      assert ws[w := x][1..] == ws[1..][w - 1 := x];
      RankSumUpdate(ws[1..], w - 1, x);
    }
  }

  function WorkLeft<C, T>(job: Job<C, T>, s: State<C, T>): nat {
    RankSum(s.workers) + if s.next < |job.cells| then 6 * (|job.cells| - s.next) else 0
  }

  /** Every step of every worker uses up work, so no schedule is longer than the work at the start. */
  lemma StepUsesUpWork<C, T>(job: Job<C, T>, s: State<C, T>, w: nat, seen: bool)
    requires Step(job, s, w, seen).Some?
    ensures WorkLeft(job, Step(job, s, w, seen).value) < WorkLeft(job, s)
  {
    hide RankSum;
    var t := Step(job, s, w, seen).value;
    RankSumUpdate(s.workers, w, t.workers[w]);
    assert t.workers == s.workers[w := t.workers[w]];
  }

  /** A worker that is not done can always take a step, so a schedule that cannot go on has ended. */
  lemma UnfinishedCanStep<C, T>(job: Job<C, T>, s: State<C, T>, w: nat)
    requires Inv(job, s) && w < |s.workers| && !s.workers[w].Done?
    ensures Step(job, s, w, false).Some?
  {
    assert WorkerInv(job, s, w);
  }

  lemma {:induction false} ScheduleIsBounded<C, T>(job: Job<C, T>, workers: nat, schedule: Schedule)
    requires Run(job, workers, schedule).Some?
    ensures |schedule| + WorkLeft(job, Run(job, workers, schedule).value) <= WorkLeft(job, Start(job, workers))
    decreases |schedule|
  {
    hide WorkLeft, Step;
    if schedule != [] {
      var last := |schedule| - 1;
      ScheduleIsBounded(job, workers, schedule[..last]);
      StepUsesUpWork(job, Run(job, workers, schedule[..last]).value, schedule[last].0, schedule[last].1);
    }
  }

  /**
   The pool run to its end. Which worker moves next, and which loads of the stop flag are stale,
   is left open, so what is ensured holds for every schedule.
   */
  method RunPool<C, T>(job: Job<C, T>, workers: nat) returns (slots: seq<Option<T>>, cells: seq<C>, ghost k: nat)
    requires workers > 0
    ensures CompletedPrefix(job, slots, cells, k)
  {
    hide Inv, Step, WorkLeft;
    var s := Start(job, workers);
    StartInv(job, workers);
    ghost var schedule: Schedule := [];
    while !AllDone(s)
      invariant Run(job, workers, schedule) == Some(s)
      decreases WorkLeft(job, s)
    {
      RunKeepsInv(job, workers, schedule);
      var w :| 0 <= w < |s.workers| && !s.workers[w].Done?;
      var seen: bool := *;
      UnfinishedCanStep(job, s, w);
      if Step(job, s, w, seen).None? {
        seen := false;
      }
      StepUsesUpWork(job, s, w, seen);
      ghost var longer := schedule + [(w, seen)];
      assert longer[..|longer| - 1] == schedule;
      schedule := longer;
      s := Step(job, s, w, seen).value;
    }
    PoolCompletesPrefix(job, workers, schedule, s);
    slots, cells := s.slots, s.cells;
    k := if s.next < |job.cells| then s.next else |job.cells|;
  }
}
