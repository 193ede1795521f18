/**
 What the gridding protocol guarantees over every interleaving: a successful
 return means that each row was written exactly once, the main thread never
 sleeps for ever, and every run comes to an end.
 */
module GridTheorems {
  import opened GridProtocol

  // ------------------------------------------------------------------- safety

  ghost predicate EveryRowWrittenOnce(c: Config, s: State) {
    |s.written| == c.nYSize && forall r :: 0 <= r < c.nYSize ==> s.written[r] == 1
  }

  /** In this step somebody says no: the progress callback, an allocation, or the gridding method. */
  ghost predicate SaysNo(c: Config, s: State, s': State) {
    || (s.main.Reporting? && s' == MainNext(c, s, false))
    || (exists w :: WorkerCanStep(s, w) && (s.workers[w].Allocating? || s.workers[w].Computing?) && s' == WorkerNext(c, s, w, false))
  }

  ghost predicate NoAt(c: Config, run: seq<State>, k: int) {
    0 <= k < |run| - 1 && SaysNo(c, run[k], run[k + 1])
  }

  lemma WorkerTroubleStarts(c: Config, s: State, w: int, ok: bool)
    requires WorkerCanStep(s, w)
    ensures WorkerNext(c, s, w, ok).trouble <==> s.trouble || (!ok && (s.workers[w].Allocating? || s.workers[w].Computing?))
  {
    hide Bumped;
  }

  lemma MainTroubleStarts(c: Config, s: State, ok: bool)
    requires MainCanStep(s)
    ensures MainNext(c, s, ok).trouble <==> s.trouble || (!ok && s.main.Reporting?)
  {
  }

  lemma TroubleStarts(c: Config, s: State, s': State)
    requires Step(c, s, s')
    ensures s'.trouble <==> s.trouble || SaysNo(c, s, s')
  {
    hide WorkerNext;
    hide MainNext;
    if SaysNo(c, s, s') {
      if s.main.Reporting? && s' == MainNext(c, s, false) {
        MainTroubleStarts(c, s, false);
      } else {
        var w :| WorkerCanStep(s, w) && (s.workers[w].Allocating? || s.workers[w].Computing?) && s' == WorkerNext(c, s, w, false);
        WorkerTroubleStarts(c, s, w, false);
      }
    } else if exists w, ok :: WorkerCanStep(s, w) && s' == WorkerNext(c, s, w, ok) {
      var w, ok :| WorkerCanStep(s, w) && s' == WorkerNext(c, s, w, ok);
      WorkerTroubleStarts(c, s, w, ok);
    } else if exists ok :: MainCanStep(s) && s' == MainNext(c, s, ok) {
      var ok :| MainCanStep(s) && s' == MainNext(c, s, ok);
      MainTroubleStarts(c, s, ok);
    }
  }

  /** The record of trouble is kept truly: it says whether somebody has said no so far. */
  lemma {:induction false} TroubleIsANo(c: Config, run: seq<State>, n: nat)
    requires IsRun(c, run) && n < |run|
    ensures run[n].trouble <==> exists k :: k < n && NoAt(c, run, k)
  {
    hide SaysNo;
    hide Step;
    if n > 0 {
      TroubleIsANo(c, run, n - 1);
      assert Step(c, run[n - 1], run[n - 1 + 1]);
      TroubleStarts(c, run[n - 1], run[n]);
      if run[n].trouble && !run[n - 1].trouble {
        assert NoAt(c, run, n - 1);
      }
    }
  }

  /**
   CE_None exactly if nobody said no in any step of the run: neither the progress
   callback nor an allocation nor the gridding method. Then every row has been
   written once.
   */
  lemma ReturnTellsTheTruth(c: Config, run: seq<State>)
    requires ValidConfig(c) && IsRun(c, run) && run[|run| - 1].main.Returned?
    ensures run[|run| - 1].main.ok ==> EveryRowWrittenOnce(c, run[|run| - 1])
    ensures run[|run| - 1].main.ok <==> !exists k :: NoAt(c, run, k)
    ensures AllJobsOver(run[|run| - 1])
  {
    hide NoAt;
    var s := run[|run| - 1];
    RunInv(c, run, |run| - 1);
    TroubleIsANo(c, run, |run| - 1);
    NoComesBeforeTheEnd(c, run);
    LaneInRange(c);
    hide Lane;
    if s.main.ok {
      forall r | 0 <= r < c.nYSize
        ensures s.written[r] == 1
      {
        var w := Lane(c, r);
        assert WorkerFine(c, s, w);
        assert s.workers[w].Finished? && s.workers[w].next >= c.nYSize;
      }
    }
  }

  lemma NoComesBeforeTheEnd(c: Config, run: seq<State>)
    ensures forall k :: NoAt(c, run, k) ==> k < |run| - 1
  {
  }

  /** No row is ever written twice, however the run ends. */
  lemma NoRowWrittenTwice(c: Config, run: seq<State>, i: nat, r: int)
    requires ValidConfig(c) && IsRun(c, run) && i < |run| && 0 <= r < c.nYSize
    ensures |run[i].written| == c.nYSize && 0 <= run[i].written[r] <= 1
  {
    RunInv(c, run, i);
  }

  // ------------------------------------------------------------- no lost wake

  /** Worker `w` has a signal to send: a stop to report, an increment to announce, or a row to count. */
  ghost predicate SignalAhead(c: Config, s: State, w: int) {
    && 0 <= w < |s.workers|
    && (OwesStopSignal(s.workers[w]) || s.workers[w].Counted? || (!s.stop && CountedUpto(c, s.workers[w], w) < c.nYSize))
  }

  lemma AllCounted(c: Config, s: State)
    requires Inv(c, s) && !s.stop
    requires forall w :: 0 <= w < c.nThreads ==> CountedUpto(c, s.workers[w], w) >= c.nYSize
    ensures s.counter == c.nYSize
  {
    LaneInRange(c);
    hide Lane;
    BelowIsBelow(c.nYSize);
    assert CountedRows(c, s) == Below(c.nYSize);
  }

  /** {0, ..., n - 1}. */
  ghost function Below(n: nat): set<int> {
    if n == 0 then {} else Below(n - 1) + {n - 1}
  }

  lemma {:induction false} BelowIsBelow(n: nat)
    ensures |Below(n)| == n
    ensures forall r :: r in Below(n) <==> 0 <= r < n
  {
    if n > 0 {
      BelowIsBelow(n - 1);
    }
  }

  /** Whenever the main thread sleeps with no wake pending, some worker at work still has a signal to send. */
  lemma SleeperWillBeWoken(c: Config, run: seq<State>, i: nat)
    requires ValidConfig(c) && IsRun(c, run) && i < |run| && run[i].main.Waiting?
    ensures exists w :: SignalAhead(c, run[i], w) && !run[i].workers[w].Idle? && !run[i].workers[w].Finished?
  {
    RunInv(c, run, i);
    var w := WorkerWithSignalAhead(c, run[i]);
  }

  lemma WorkerWithSignalAhead(c: Config, s: State) returns (w: int)
    requires Inv(c, s) && s.main.Waiting?
    ensures SignalAhead(c, s, w) && !s.workers[w].Idle? && !s.workers[w].Finished?
  {
    hide Lane;
    if s.stop {
      w :| 0 <= w < |s.workers| && OwesStopSignal(s.workers[w]);
    } else if s.counter >= c.nYSize {
      w :| 0 <= w < |s.workers| && s.workers[w].Counted?;
    } else {
      if forall v :: 0 <= v < c.nThreads ==> CountedUpto(c, s.workers[v], v) >= c.nYSize {
        AllCounted(c, s);
        assert false;
      }
      w :| 0 <= w < c.nThreads && CountedUpto(c, s.workers[w], w) < c.nYSize;
      assert WorkerFine(c, s, w);
    }
  }

  /** In every state before the return, some thread can go on without a spurious wake. */
  lemma NeverStuck(c: Config, run: seq<State>, i: nat)
    requires ValidConfig(c) && IsRun(c, run) && i < |run| && !run[i].main.Returned?
    ensures exists s' :: ThreadStep(c, run[i], s')
  {
    RunInv(c, run, i);
    SomebodyCanStep(c, run[i]);
  }

  lemma SomebodyCanStep(c: Config, s: State)
    requires Inv(c, s) && !s.main.Returned?
    ensures exists s' :: ThreadStep(c, s, s')
  {
    hide Lane;
    if MainCanStep(s) {
      assert ThreadStep(c, s, MainNext(c, s, true));
    } else {
      var w := WorkerThatCanStep(c, s);
      assert ThreadStep(c, s, WorkerNext(c, s, w, true));
    }
  }

  lemma WorkerThatCanStep(c: Config, s: State) returns (w: int)
    requires Inv(c, s) && !s.main.Returned? && !MainCanStep(s)
    ensures WorkerCanStep(s, w)
  {
    hide Lane;
    if s.mutex.HeldBy? {
      w := s.mutex.w;
      assert WorkerFine(c, s, w);
    } else if s.main.Waiting? {
      w := WorkerWithSignalAhead(c, s);
    } else {
      assert s.main.Joining? && s.mutex == Free;
      w :| 0 <= w < |s.workers| && !s.workers[w].Idle? && !s.workers[w].Finished?;
    }
  }

  // ------------------------------------------------------------- termination

  /** How many more steps a worker may take at its place in a row; a signal costs 10, for what it starts in the main thread. */
  ghost function LocalBudget(pc: Worker): int {
    match pc
    case Idle => 61
    case Allocating => 60
    case Computing(_) => 50
    case Stopping(why) => if why.AllocFailed? then 57 else 49
    case Wanting(why) => if why.RowDone? then 23 else if why.AllocFailed? then 56 else 48
    case Locked(why) => if why.RowDone? then 22 else if why.AllocFailed? then 55 else 47
    case Counted(why) => if why.RowDone? then 21 else if why.AllocFailed? then 54 else 46
    case Signalled(why) => if why.RowDone? then 10 else if why.AllocFailed? then 40 else 30
    case Checked(why, _) => if why.RowDone? then 9 else if why.AllocFailed? then 39 else 29
    case Writing(_) => 25
    case Testing(_) => 24
    case Finished(_) => 0
  }

  ghost function RowsAhead(c: Config, row: int): nat {
    if row < c.nYSize then c.nYSize - row else 0
  }

  ghost function WorkerBudget(c: Config, pc: Worker, w: int): int {
    if pc.Finished? then 0 else 60 * RowsAhead(c, RowOf(c, pc, w)) + LocalBudget(pc)
  }

  ghost function WorkersBudget(c: Config, workers: seq<Worker>, n: nat): int
    requires n <= |workers|
  {
    if n == 0 then 0 else WorkersBudget(c, workers, n - 1) + WorkerBudget(c, workers[n - 1], n - 1)
  }

  ghost function MainBudget(c: Config, m: Main): int {
    match m
    case Submitting(i) => 12 + c.nThreads - i
    case Deciding => 4
    case GoingToWait => 3
    case Waiting => 1
    case Woken => 9
    case Reading => 8
    case Reporting(_) => 7
    case Refused => 6
    case Relocking => 5
    case Joining => 2
    case Returned(_) => 0
  }

  /** An upper bound on the steps that are left, spurious wakes aside. */
  ghost function Budget(c: Config, s: State): int {
    MainBudget(c, s.main) + WorkersBudget(c, s.workers, |s.workers|)
  }

  lemma {:induction false} WorkersBudgetUpdate(c: Config, workers: seq<Worker>, w: int, pc: Worker, n: nat)
    requires n <= |workers| && 0 <= w < |workers|
    ensures WorkersBudget(c, workers[w := pc], n) ==
      WorkersBudget(c, workers, n) + (if w < n then WorkerBudget(c, pc, w) - WorkerBudget(c, workers[w], w) else 0)
  {
    if n > 0 {
      WorkersBudgetUpdate(c, workers, w, pc, n - 1);
    }
  }

  lemma {:induction false} WorkersBudgetNotNegative(c: Config, workers: seq<Worker>, n: nat)
    requires n <= |workers|
    ensures WorkersBudget(c, workers, n) >= 0
  {
    if n > 0 {
      WorkersBudgetNotNegative(c, workers, n - 1);
    }
  }

  lemma WorkerBudgetDrops(c: Config, s: State, w: int, ok: bool)
    requires ValidConfig(c) && |s.workers| == c.nThreads && WorkerCanStep(s, w) && WorkerFine(c, s, w)
    ensures WorkerBudget(c, WorkerNext(c, s, w, ok).workers[w], w) + (if s.workers[w].Counted? then 10 else 0)
      < WorkerBudget(c, s.workers[w], w)
    ensures WorkerNext(c, s, w, ok).workers == s.workers[w := WorkerNext(c, s, w, ok).workers[w]]
    ensures WorkerNext(c, s, w, ok).main == if s.workers[w].Counted? && s.main == Waiting then Woken else s.main
  {
    hide Lane;
  }

  lemma WorkerStepCosts(c: Config, s: State, w: int, ok: bool)
    requires Inv(c, s) && WorkerCanStep(s, w)
    ensures Budget(c, WorkerNext(c, s, w, ok)) < Budget(c, s)
  {
    var s' := WorkerNext(c, s, w, ok);
    assert WorkerFine(c, s, w);
    WorkerBudgetDrops(c, s, w, ok);
    hide WorkerNext;
    hide WorkerFine;
    hide WorkerBudget;
    WorkersBudgetUpdate(c, s.workers, w, s'.workers[w], c.nThreads);
  }

  lemma MainStepCosts(c: Config, s: State, ok: bool)
    requires Inv(c, s) && MainCanStep(s)
    ensures Budget(c, MainNext(c, s, ok)) < Budget(c, s)
  {
    hide Lane;
    hide WorkerFine;
    hide RowsFine;
    hide CounterFine;
    hide SignalPromised;
    hide TroubleReported;
    if s.main.Submitting? && s.main.i < c.nThreads && !s.stop {
      WorkersBudgetUpdate(c, s.workers, s.main.i, Allocating, c.nThreads);
    }
  }

  /** Spurious wakes among the first `n` steps of the run. */
  ghost function SpuriousWakes(c: Config, run: seq<State>, n: nat): nat
    requires n < |run|
  {
    if n == 0 then 0
    else SpuriousWakes(c, run, n - 1) + (if ThreadStep(c, run[n - 1], run[n]) then 0 else 1)
  }

  lemma {:induction false} StepsWithinBudget(c: Config, run: seq<State>, n: nat)
    requires ValidConfig(c) && IsRun(c, run) && n < |run|
    ensures n + Budget(c, run[n]) <= Budget(c, Init(c)) + 9 * SpuriousWakes(c, run, n)
  {
    hide Budget;
    hide Inv;
    hide ThreadStep;
    if n > 0 {
      StepsWithinBudget(c, run, n - 1);
      RunInv(c, run, n - 1);
      assert Step(c, run[n - 1], run[n - 1 + 1]);
      hide Step;
      OneStepCosts(c, run[n - 1], run[n]);
    }
  }

  /** Every step of a thread takes from the budget, and a spurious wake gives no more than eight steps. */
  lemma OneStepCosts(c: Config, s: State, s': State)
    requires Inv(c, s) && Step(c, s, s')
    ensures 1 + Budget(c, s') <= Budget(c, s) + (if ThreadStep(c, s, s') then 0 else 9)
  {
    hide Inv;
    hide WorkerNext;
    hide MainNext;
    hide WorkerCanStep;
    hide MainCanStep;
    if exists w, ok :: WorkerCanStep(s, w) && s' == WorkerNext(c, s, w, ok) {
      var w, ok :| WorkerCanStep(s, w) && s' == WorkerNext(c, s, w, ok);
      WorkerStepCosts(c, s, w, ok);
    } else if exists ok :: MainCanStep(s) && s' == MainNext(c, s, ok) {
      var ok :| MainCanStep(s) && s' == MainNext(c, s, ok);
      MainStepCosts(c, s, ok);
    } else {
      assert SpuriousWake(s, s') && !ThreadStep(c, s, s');
    }
  }

  /**
   No run goes on for ever: its length is bounded by the work there is plus nine
   steps for every spurious wake. Together with NeverStuck, every run that is
   carried on long enough returns.
   */
  lemma EveryRunEnds(c: Config, run: seq<State>)
    requires ValidConfig(c) && IsRun(c, run)
    ensures |run| <= Budget(c, Init(c)) + 1 + 9 * SpuriousWakes(c, run, |run| - 1)
  {
    StepsWithinBudget(c, run, |run| - 1);
    var s := run[|run| - 1];
    RunInv(c, run, |run| - 1);
    WorkersBudgetNotNegative(c, s.workers, |s.workers|);
  }
}
