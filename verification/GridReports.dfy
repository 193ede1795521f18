/**
 What the main thread and the workers of the gridding protocol owe to the
 progress callback: it is asked after every wake, with a count that never falls,
 and when it says no, or something else sets the stop flag, the workers are done
 after at most one more row each.
 */
module GridReports {
  import opened Basics
  import opened Modular
  import opened GridProtocol
  import opened GridTheorems

  // ------------------------------------------------------- the callback is asked

  ghost predicate ReportAt(run: seq<State>, k: int) {
    0 <= k < |run| && run[k].main.Reporting?
  }

  /** Between being woken and asking the callback, the main thread only takes the mutex and reads the counter. */
  lemma WakeLeadsToReport(c: Config, s: State, s': State)
    requires Step(c, s, s') && (s.main.Woken? || s.main.Reading?)
    ensures s'.main.Woken? || s'.main.Reading? || s'.main.Reporting?
  {
    hide WorkerNext;
    hide WorkerCanStep;
    if exists w, ok :: WorkerCanStep(s, w) && s' == WorkerNext(c, s, w, ok) {
      var w, ok :| WorkerCanStep(s, w) && s' == WorkerNext(c, s, w, ok);
      WorkersDoNotReport(c, s, w, ok);
    }
  }

  lemma {:induction false} NothingElseBeforeReport(c: Config, run: seq<State>, i: nat, j: nat)
    requires IsRun(c, run) && i <= j < |run| && run[i].main.Woken? && forall k :: i < k <= j ==> !ReportAt(run, k)
    ensures run[j].main.Woken? || run[j].main.Reading?
  {
    hide Step;
    if i < j {
      NothingElseBeforeReport(c, run, i, j - 1);
      assert Step(c, run[j - 1], run[j - 1 + 1]);
      WakeLeadsToReport(c, run[j - 1], run[j]);
      assert !ReportAt(run, j);
    }
  }

  /** After a wake, the main thread does not look at its loop condition again before it has asked the callback. */
  lemma CallbackIsAsked(c: Config, run: seq<State>, i: nat, j: nat)
    requires IsRun(c, run) && i < j < |run| && run[i].main.Woken? && run[j].main.Deciding?
    ensures exists k :: i < k < j && ReportAt(run, k)
  {
    if !exists k :: i < k < j && ReportAt(run, k) {
      NothingElseBeforeReport(c, run, i, j);
      assert false;
    }
  }

  // ---------------------------------------------------------- what is reported

  /** The counter never falls, and a report never exceeds it. */
  ghost predicate ReportsBelow(s: State) {
    s.main.Reporting? ==> s.main.done <= s.counter
  }

  lemma WorkersDoNotReport(c: Config, s: State, w: int, ok: bool)
    requires WorkerCanStep(s, w)
    ensures var s' := WorkerNext(c, s, w, ok);
      s.counter <= s'.counter && s'.main == if s.workers[w].Counted? && s.main == Waiting then Woken else s.main
  {
    hide Bumped;
  }

  /** A report that starts is of the counter as it is, and one that goes on does not change. */
  lemma ReportIsTheCounter(c: Config, s: State, s': State)
    requires Step(c, s, s')
    ensures s.counter <= s'.counter
    ensures s'.main.Reporting? ==> if s.main.Reporting? then s'.main == s.main else s.main.Reading? && s'.main.done == s.counter == s'.counter
  {
    hide WorkerNext;
    hide WorkerCanStep;
    if exists w, ok :: WorkerCanStep(s, w) && s' == WorkerNext(c, s, w, ok) {
      var w, ok :| WorkerCanStep(s, w) && s' == WorkerNext(c, s, w, ok);
      WorkersDoNotReport(c, s, w, ok);
    }
  }

  lemma {:induction false} ReportsStayBelow(c: Config, run: seq<State>, n: nat)
    requires IsRun(c, run) && n < |run|
    ensures ReportsBelow(run[n])
  {
    hide Step;
    if n > 0 {
      ReportsStayBelow(c, run, n - 1);
      assert Step(c, run[n - 1], run[n - 1 + 1]);
      ReportIsTheCounter(c, run[n - 1], run[n]);
    }
  }

  lemma {:induction false} LaterReports(c: Config, run: seq<State>, i: nat, j: nat, done: int)
    requires IsRun(c, run) && i <= j < |run| && run[i].main.Reporting? && run[i].main.done == done
    ensures done <= run[j].counter && (run[j].main.Reporting? ==> done <= run[j].main.done)
  {
    hide Step;
    if i == j {
      ReportsStayBelow(c, run, i);
    } else {
      LaterReports(c, run, i, j - 1, done);
      assert Step(c, run[j - 1], run[j - 1 + 1]);
      ReportIsTheCounter(c, run[j - 1], run[j]);
    }
  }

  lemma CounterWithinRows(c: Config, s: State)
    requires Inv(c, s) && !s.stop
    ensures 0 <= s.counter <= c.nYSize
  {
    hide Lane;
    hide CountedUpto;
    LaneInRange(c);
    BelowIsBelow(c.nYSize);
    SubsetSize(CountedRows(c, s), Below(c.nYSize));
  }

  /** What is reported never falls, and until a stop it is the number of rows counted, so never more than there are. */
  lemma ReportsNeverFall(c: Config, run: seq<State>, i: nat, j: nat)
    requires ValidConfig(c) && IsRun(c, run) && i <= j < |run| && run[i].main.Reporting? && run[j].main.Reporting?
    ensures run[i].main.done <= run[j].main.done
    ensures !run[j].stop ==> run[j].main.done <= c.nYSize
  {
    LaterReports(c, run, i, j, run[i].main.done);
    ReportsStayBelow(c, run, j);
    RunInv(c, run, j);
    if !run[j].stop {
      CounterWithinRows(c, run[j]);
    }
  }

  // ------------------------------------------------------------ a stop is heeded

  /** Up to where a worker may still write when the stop flag is set. */
  ghost function Allowance(c: Config, pc: Worker, w: int): int {
    match pc
    case Idle => w
    case Allocating => w + c.nThreads
    case Computing(row) => row + c.nThreads
    case Stopping(why) => WhyAllowance(c, why, w)
    case Wanting(why) => WhyAllowance(c, why, w)
    case Locked(why) => WhyAllowance(c, why, w)
    case Counted(why) => WhyAllowance(c, why, w)
    case Signalled(why) => WhyAllowance(c, why, w)
    case Checked(why, sawStop) =>
      if why.RowDone? && !sawStop then why.row + 2 * c.nThreads else WhyAllowance(c, why, w)
    case Writing(row) => row + c.nThreads
    case Testing(row) => row + c.nThreads
    case Finished(next) => next
  }

  ghost function WhyAllowance(c: Config, why: Why, w: int): int {
    if why.AllocFailed? then w else why.row + c.nThreads
  }

  lemma AllowanceIsOneRow(c: Config, pc: Worker, w: int)
    ensures WrittenUpto(c, pc, w) <= Allowance(c, pc, w) <= WrittenUpto(c, pc, w) + c.nThreads
  {
  }

  lemma WorkerAllowanceFalls(c: Config, s: State, w: int, ok: bool, v: int)
    requires s.stop && WorkerCanStep(s, w) && 0 <= v < |s.workers|
    ensures var s' := WorkerNext(c, s, w, ok);
      s'.stop && Allowance(c, s'.workers[v], v) <= Allowance(c, s.workers[v], v)
  {
    hide Bumped;
  }

  lemma AllowanceFalls(c: Config, s: State, s': State, v: int)
    requires s.stop && Step(c, s, s') && 0 <= v < |s.workers|
    ensures |s'.workers| == |s.workers| && s'.stop && Allowance(c, s'.workers[v], v) <= Allowance(c, s.workers[v], v)
  {
    hide WorkerNext;
    hide WorkerCanStep;
    if exists w, ok :: WorkerCanStep(s, w) && s' == WorkerNext(c, s, w, ok) {
      var w, ok :| WorkerCanStep(s, w) && s' == WorkerNext(c, s, w, ok);
      WorkerAllowanceFalls(c, s, w, ok, v);
    }
  }

  lemma {:induction false} AllowanceStaysBelow(c: Config, run: seq<State>, i: nat, j: nat, v: int)
    requires IsRun(c, run) && i <= j < |run| && run[i].stop && 0 <= v < |run[i].workers|
    ensures |run[j].workers| == |run[i].workers| && run[j].stop
    ensures Allowance(c, run[j].workers[v], v) <= Allowance(c, run[i].workers[v], v)
  {
    hide Step;
    hide Allowance;
    if i < j {
      AllowanceStaysBelow(c, run, i, j - 1, v);
      assert Step(c, run[j - 1], run[j - 1 + 1]);
      AllowanceFalls(c, run[j - 1], run[j], v);
    }
  }

  lemma NextInLane(r: int, r': int, n: int)
    requires n > 0 && r < r' && r % n == r' % n
    ensures r' >= r + n
  {
    if r' < r + n {
      SameResidue(r, r', n);
    }
  }

  /**
   Once the stop flag is set, each worker writes at most one more row: of two rows
   of the same worker that were both open, the later one stays unwritten.
   */
  lemma StopIsHeeded(c: Config, run: seq<State>, i: nat, j: nat, r: int, r': int)
    requires ValidConfig(c) && IsRun(c, run) && i <= j < |run| && run[i].stop
    requires 0 <= r < r' < c.nYSize && r % c.nThreads == r' % c.nThreads
    requires |run[i].written| == c.nYSize && run[i].written[r] == 0
    ensures |run[j].written| == c.nYSize && run[j].written[r'] == 0
  {
    hide Allowance;
    hide WrittenUpto;
    hide WorkerFine;
    RunInv(c, run, i);
    RunInv(c, run, j);
    LaneInRange(c);
    var w := Lane(c, r);
    NextInLane(r, r', c.nThreads);
    AllowanceStaysBelow(c, run, i, j, w);
    AllowanceIsOneRow(c, run[i].workers[w], w);
    AllowanceIsOneRow(c, run[j].workers[w], w);
    assert run[i].written[r] == if r < WrittenUpto(c, run[i].workers[w], w) then 1 else 0;
    assert Lane(c, r') == w;
    assert run[j].written[r'] == if r' < WrittenUpto(c, run[j].workers[w], w) then 1 else 0;
  }
}
