/**
 The multi-threaded gridding protocol: worker jobs that each compute every
 nThreads-th row, and a main thread that waits on a condition variable, reports
 progress and finally joins the workers. Every step below is one atomic action;
 the steps of all threads interleave freely. `stop` is written and read without
 the mutex, the row counter only under it.
 */
module GridProtocol {
  import opened Modular

  datatype Config = Config(nThreads: nat, nYSize: nat)

  /** Why a worker calls the progress function. */
  datatype Why = RowDone(row: int) | MethodFailed(row: int) | AllocFailed

  /** Where a worker stands. */
  datatype Worker =
    | Idle                                // job not submitted yet
    | Allocating                          // about to allocate its scanline
    | Computing(row: int)                 // in the pixel loop of a row
    | Stopping(why: Why)                  // about to set the stop flag
    | Wanting(why: Why)                   // in the progress function, waits for the mutex
    | Locked(why: Why)                    // holds the mutex
    | Counted(why: Why)                   // has incremented the counter
    | Signalled(why: Why)                 // has signalled the condition
    | Checked(why: Why, sawStop: bool)    // has read the stop flag, about to release
    | Writing(row: int)                   // about to copy the scanline to the output
    | Testing(row: int)                   // about to look at the stop flag
    | Finished(next: int)                 // job over; `next` is the row it would do next

  /** Where the main thread stands. */
  datatype Main =
    | Submitting(i: int)                  // in the loop that starts the jobs, holds the mutex
    | Deciding                            // evaluates the loop condition, holds the mutex
    | GoingToWait                         // about to wait, holds the mutex
    | Waiting                             // asleep in the condition, no wake pending
    | Woken                               // woken, wants the mutex back
    | Reading                             // holds the mutex, reads the counter
    | Reporting(done: int)                // runs the progress callback with the number read, without the mutex
    | Refused                             // the callback said no, about to set the stop flag
    | Relocking                           // wants the mutex again
    | Joining                             // waits for all jobs
    | Returned(ok: bool)

  datatype Owner = Free | HeldByMain | HeldBy(w: int)

  datatype State = State(workers: seq<Worker>, main: Main, mutex: Owner, counter: int, stop: bool,
                         written: seq<int>, trouble: bool)

  ghost predicate ValidConfig(c: Config) {
    c.nThreads >= 1 && c.nYSize >= 1
  }

  ghost function Init(c: Config): State {
    State(seq(c.nThreads, _ => Idle), Submitting(0), HeldByMain, 0, false, seq(c.nYSize, _ => 0), false)
  }

  // --------------------------------------------------------------- the workers

  ghost function StartRow(c: Config, row: int): Worker {
    if row < c.nYSize then Computing(row) else Finished(row)
  }

  ghost predicate WorkerCanStep(s: State, w: int) {
    && 0 <= w < |s.workers|
    && !s.workers[w].Idle?
    && !s.workers[w].Finished?
    && (s.workers[w].Wanting? ==> s.mutex == Free)
  }

  ghost function At(s: State, w: int, pc: Worker): State
    requires 0 <= w < |s.workers|
  {
    s.(workers := s.workers[w := pc])
  }

  ghost function Bumped(written: seq<int>, row: int): seq<int> {
    if 0 <= row < |written| then written[row := written[row] + 1] else written
  }

  /** One action of worker `w`; `ok` says whether the allocation or the gridding method succeeds. */
  ghost function WorkerNext(c: Config, s: State, w: int, ok: bool): (s': State)
    requires WorkerCanStep(s, w)
    ensures |s'.workers| == |s.workers|
  {
    match s.workers[w]
    case Idle => s
    case Allocating =>
      if ok then At(s, w, StartRow(c, w)) else At(s, w, Stopping(AllocFailed)).(trouble := true)
    case Computing(row) =>
      if ok then At(s, w, Writing(row)) else At(s, w, Stopping(MethodFailed(row))).(trouble := true)
    case Stopping(why) => At(s, w, Wanting(why)).(stop := true)
    case Wanting(why) => At(s, w, Locked(why)).(mutex := HeldBy(w))
    case Locked(why) => At(s, w, Counted(why)).(counter := s.counter + 1)
    case Counted(why) => At(s, w, Signalled(why)).(main := if s.main == Waiting then Woken else s.main)
    case Signalled(why) => At(s, w, Checked(why, s.stop))
    case Checked(why, sawStop) =>
      var next := match why
        case AllocFailed => Finished(w)
        case MethodFailed(row) => Writing(row)
        case RowDone(row) => if sawStop then Finished(row + c.nThreads) else StartRow(c, row + c.nThreads);
      At(s, w, next).(mutex := Free)
    case Writing(row) => At(s, w, Testing(row)).(written := Bumped(s.written, row))
    case Testing(row) => At(s, w, if s.stop then Finished(row + c.nThreads) else Wanting(RowDone(row)))
    case Finished(_) => s
  }

  // ----------------------------------------------------------- the main thread

  ghost predicate AllJobsOver(s: State) {
    forall w :: 0 <= w < |s.workers| ==> s.workers[w].Idle? || s.workers[w].Finished?
  }

  ghost predicate MainCanStep(s: State) {
    match s.main
    case Waiting => false
    case Woken => s.mutex == Free
    case Relocking => s.mutex == Free
    case Joining => AllJobsOver(s)
    case Returned(_) => false
    case _ => true
  }

  /** One action of the main thread; `ok` is the answer of the progress callback. */
  ghost function MainNext(c: Config, s: State, ok: bool): State {
    match s.main
    case Submitting(i) =>
      if 0 <= i < c.nThreads && i < |s.workers| && !s.stop then At(s, i, Allocating).(main := Submitting(i + 1))
      else s.(main := Deciding)
    case Deciding =>
      if s.counter < c.nYSize && !s.stop then s.(main := GoingToWait) else s.(main := Joining, mutex := Free)
    case GoingToWait => s.(main := Waiting, mutex := Free)
    case Waiting => s
    case Woken => s.(main := Reading, mutex := HeldByMain)
    case Reading => s.(main := Reporting(s.counter), mutex := Free)
    case Reporting(_) => if ok then s.(main := Relocking) else s.(main := Refused, trouble := true)
    case Refused => s.(main := Relocking, stop := true)
    case Relocking => s.(main := Deciding, mutex := HeldByMain)
    case Joining => s.(main := Returned(!s.stop))
    case Returned(_) => s
  }

  /** A condition variable may also wake its waiter for no reason. */
  ghost predicate SpuriousWake(s: State, s': State) {
    s.main == Waiting && s' == s.(main := Woken)
  }

  ghost predicate ThreadStep(c: Config, s: State, s': State) {
    || (exists w, ok :: WorkerCanStep(s, w) && s' == WorkerNext(c, s, w, ok))
    || (exists ok :: MainCanStep(s) && s' == MainNext(c, s, ok))
  }

  ghost predicate Step(c: Config, s: State, s': State) {
    ThreadStep(c, s, s') || SpuriousWake(s, s')
  }

  /** Any interleaving from the start. */
  ghost predicate IsRun(c: Config, run: seq<State>) {
    && |run| > 0
    && run[0] == Init(c)
    && forall i :: 0 <= i < |run| - 1 ==> Step(c, run[i], run[i + 1])
  }

  // -------------------------------------------------------------- the invariant

  /** The row a worker is busy with, if any. */
  ghost function RowOf(c: Config, pc: Worker, w: int): int {
    match pc
    case Idle => w
    case Allocating => w
    case Computing(row) => row
    case Stopping(why) => WhyRow(why, w)
    case Wanting(why) => WhyRow(why, w)
    case Locked(why) => WhyRow(why, w)
    case Counted(why) => WhyRow(why, w)
    case Signalled(why) => WhyRow(why, w)
    case Checked(why, _) => WhyRow(why, w)
    case Writing(row) => row
    case Testing(row) => row
    case Finished(next) => next
  }

  ghost function WhyRow(why: Why, w: int): int {
    match why
    case RowDone(row) => row
    case MethodFailed(row) => row
    case AllocFailed => w
  }

  ghost predicate HasWhy(pc: Worker) {
    pc.Stopping? || pc.Wanting? || pc.Locked? || pc.Counted? || pc.Signalled? || pc.Checked?
  }

  /** The worker holds the mutex. */
  ghost predicate Holds(pc: Worker) {
    pc.Locked? || pc.Counted? || pc.Signalled? || pc.Checked?
  }

  ghost predicate MainHolds(m: Main) {
    m.Submitting? || m.Deciding? || m.GoingToWait? || m.Reading?
  }

  /** Rows of this worker below this bound have been written. */
  ghost function WrittenUpto(c: Config, pc: Worker, w: int): int {
    if pc.Testing? || (HasWhy(pc) && pc.why.RowDone?) then RowOf(c, pc, w) + c.nThreads else RowOf(c, pc, w)
  }

  /** Rows of this worker below this bound have been counted. */
  ghost function CountedUpto(c: Config, pc: Worker, w: int): int {
    if (pc.Counted? || pc.Signalled? || pc.Checked?) && pc.why.RowDone? then RowOf(c, pc, w) + c.nThreads
    else RowOf(c, pc, w)
  }

  /** The worker has set the stop flag, or is about to, and has not told the main thread yet. */
  ghost predicate OwesStopSignal(pc: Worker) {
    (pc.Wanting? || pc.Locked? || pc.Counted?) && !pc.why.RowDone?
  }

  /** The worker that is responsible for a row. */
  ghost function Lane(c: Config, r: int): int
    requires ValidConfig(c)
  {
    r % c.nThreads
  }

  ghost predicate WorkerFine(c: Config, s: State, w: int)
    requires 0 <= w < |s.workers| && ValidConfig(c)
  {
    var pc := s.workers[w];
    && Lane(c, RowOf(c, pc, w)) == w
    && RowOf(c, pc, w) >= w
    && (pc.Computing? || pc.Writing? || pc.Testing? || (HasWhy(pc) && !pc.why.AllocFailed?) ==> RowOf(c, pc, w) < c.nYSize)
    && (pc.Stopping? ==> !pc.why.RowDone? && s.trouble)
    && (HasWhy(pc) && !pc.Stopping? && !pc.why.RowDone? ==> s.stop)
    && (pc.Checked? && pc.sawStop ==> s.stop)
    && (pc.Finished? && pc.next < c.nYSize ==> s.stop)
    && (Holds(pc) <==> s.mutex == HeldBy(w))
  }

  ghost predicate MainFine(c: Config, s: State) {
    && (MainHolds(s.main) <==> s.mutex == HeldByMain)
    && (s.mutex.HeldBy? ==> 0 <= s.mutex.w < c.nThreads)
    && (s.main.Submitting? ==> 0 <= s.main.i <= c.nThreads && forall w :: 0 <= w < |s.workers| ==> (w >= s.main.i <==> s.workers[w].Idle?))
    && (!s.main.Submitting? && !s.stop ==> forall w :: 0 <= w < |s.workers| ==> !s.workers[w].Idle?)
    && (s.main.Refused? ==> s.trouble)
    && (s.main.Returned? ==> AllJobsOver(s) && (s.main.ok <==> !s.stop))
    && (s.stop ==> s.trouble)
  }

  /** A waiting main thread has been promised a signal. */
  ghost predicate SignalPromised(c: Config, s: State) {
    s.main.GoingToWait? || s.main.Waiting? ==>
      && (s.counter < c.nYSize || exists w :: 0 <= w < |s.workers| && s.workers[w].Counted?)
      && (s.stop ==> exists w :: 0 <= w < |s.workers| && OwesStopSignal(s.workers[w]))
  }

  /** Trouble that has not reached the stop flag yet is on its way to it. */
  ghost predicate TroubleReported(s: State) {
    s.trouble && !s.stop ==> s.main.Refused? || exists w :: 0 <= w < |s.workers| && s.workers[w].Stopping?
  }

  ghost predicate RowsFine(c: Config, s: State)
    requires ValidConfig(c) && |s.workers| == c.nThreads
  {
    && |s.written| == c.nYSize
    && forall r :: 0 <= r < c.nYSize ==>
         s.written[r] == if r < WrittenUpto(c, s.workers[Lane(c, r)], Lane(c, r)) then 1 else 0
  }

  ghost function CountedRows(c: Config, s: State): set<int>
    requires ValidConfig(c) && |s.workers| == c.nThreads
  {
    set r | 0 <= r < c.nYSize && r < CountedUpto(c, s.workers[Lane(c, r)], Lane(c, r))
  }

  ghost predicate CounterFine(c: Config, s: State)
    requires ValidConfig(c) && |s.workers| == c.nThreads
  {
    !s.stop ==> s.counter == |CountedRows(c, s)|
  }

  ghost predicate Inv(c: Config, s: State) {
    && ValidConfig(c)
    && |s.workers| == c.nThreads
    && (forall w :: 0 <= w < c.nThreads ==> WorkerFine(c, s, w))
    && MainFine(c, s)
    && SignalPromised(c, s)
    && TroubleReported(s)
    && RowsFine(c, s)
    && CounterFine(c, s)
  }

  lemma LaneInRange(c: Config)
    requires ValidConfig(c)
    ensures forall r :: 0 <= r ==> 0 <= Lane(c, r) < c.nThreads && Lane(c, r) <= r
    ensures forall w :: 0 <= w < c.nThreads ==> Lane(c, w) == w
  {
    forall r | 0 <= r
      ensures 0 <= Lane(c, r) < c.nThreads && Lane(c, r) <= r
    {
      ModBelow(r, c.nThreads);
    }
    forall w | 0 <= w < c.nThreads
      ensures Lane(c, w) == w
    {
      SmallMod(w, c.nThreads);
    }
  }

  lemma SmallMod(w: int, n: int)
    requires 0 <= w < n
    ensures w % n == w
  {
  }

  lemma ModBelow(r: int, n: int)
    requires 0 <= r && n > 0
    ensures 0 <= r % n < n && r % n <= r
  {
  }

  lemma InitInv(c: Config)
    requires ValidConfig(c)
    ensures Inv(c, Init(c))
  {
    var s := Init(c);
    LaneInRange(c);
    assert CountedRows(c, s) == {};
  }

  // ----------------------------------------------- every step keeps the invariant

  /** The worker that steps stays fine ... */
  lemma StepperStaysFine(c: Config, s: State, w: int, ok: bool)
    requires ValidConfig(c) && |s.workers| == c.nThreads && WorkerCanStep(s, w) && WorkerFine(c, s, w)
    ensures WorkerFine(c, WorkerNext(c, s, w, ok), w)
  {
    var row := RowOf(c, s.workers[w], w);
    StepMod(row, c.nThreads);
    SmallMod(w, c.nThreads);
    assert Lane(c, row + c.nThreads) == w && Lane(c, w) == w;
    hide Lane;
    if HasWhy(s.workers[w]) {
    } else {
    }
  }

  /** ... and so do the others. */
  lemma OthersStayFine(c: Config, s: State, w: int, ok: bool, v: int)
    requires ValidConfig(c) && |s.workers| == c.nThreads && WorkerCanStep(s, w) && WorkerFine(c, s, w)
    requires 0 <= v < c.nThreads && v != w && WorkerFine(c, s, v)
    ensures WorkerFine(c, WorkerNext(c, s, w, ok), v)
  {
    hide Lane;
    assert WorkerFine(c, s, w) && WorkerFine(c, s, v);
    var s' := WorkerNext(c, s, w, ok);
    assert s'.workers[v] == s.workers[v];
    assert s.stop ==> s'.stop;
    assert s.trouble ==> s'.trouble;
    assert s'.mutex == HeldBy(v) <==> s.mutex == HeldBy(v);
  }

  lemma WorkersStayFine(c: Config, s: State, w: int, ok: bool)
    requires Inv(c, s) && WorkerCanStep(s, w)
    ensures forall v :: 0 <= v < c.nThreads ==> WorkerFine(c, WorkerNext(c, s, w, ok), v)
  {
    hide WorkerFine;
    hide WorkerNext;
    assert WorkerFine(c, s, w);
    StepperStaysFine(c, s, w, ok);
    forall v | 0 <= v < c.nThreads && v != w
      ensures WorkerFine(c, WorkerNext(c, s, w, ok), v)
    {
      OthersStayFine(c, s, w, ok, v);
    }
  }

  lemma MainStaysFine(c: Config, s: State, w: int, ok: bool)
    requires Inv(c, s) && WorkerCanStep(s, w)
    ensures MainFine(c, WorkerNext(c, s, w, ok))
  {
    hide RowsFine;
    hide CounterFine;
    hide SignalPromised;
    hide TroubleReported;
    hide Lane;
    assert WorkerFine(c, s, w);
  }

  lemma PromiseKept(c: Config, s: State, w: int, ok: bool)
    requires Inv(c, s) && WorkerCanStep(s, w)
    ensures SignalPromised(c, WorkerNext(c, s, w, ok))
  {
    hide RowsFine;
    hide CounterFine;
    hide TroubleReported;
    hide Lane;
    var s' := WorkerNext(c, s, w, ok);
    assert WorkerFine(c, s, w);
    if s'.main.GoingToWait? || s'.main.Waiting? {
      assert s.main == s'.main;
      if s'.counter >= c.nYSize {
        if s.counter < c.nYSize {
          assert s'.workers[w].Counted?;
        } else {
          var v :| 0 <= v < |s.workers| && s.workers[v].Counted?;
          assert WorkerFine(c, s, v);
          assert s'.workers[v].Counted?;
        }
      }
      if s'.stop {
        if !s.stop {
          assert OwesStopSignal(s'.workers[w]);
        } else {
          var v :| 0 <= v < |s.workers| && OwesStopSignal(s.workers[v]);
          assert OwesStopSignal(s'.workers[v]);
        }
      }
    }
  }

  lemma TroubleStaysReported(c: Config, s: State, w: int, ok: bool)
    requires Inv(c, s) && WorkerCanStep(s, w)
    ensures TroubleReported(WorkerNext(c, s, w, ok))
  {
    var s' := WorkerNext(c, s, w, ok);
    if s'.trouble && !s'.stop {
      if !s.trouble {
        assert s'.workers[w].Stopping?;
      } else if !s.main.Refused? {
        var v :| 0 <= v < |s.workers| && s.workers[v].Stopping?;
        assert s'.workers[v].Stopping?;
      }
    }
  }

  /** Only copying the scanline moves the mark of written rows, by one stride. */
  lemma OnlyWritingWrites(c: Config, s: State, w: int, ok: bool)
    requires WorkerCanStep(s, w)
    ensures WorkerNext(c, s, w, ok).written == if s.workers[w].Writing? then Bumped(s.written, s.workers[w].row) else s.written
    ensures forall v :: 0 <= v < |s.workers| && v != w ==> WorkerNext(c, s, w, ok).workers[v] == s.workers[v]
  {
    hide Bumped;
  }

  lemma UptoMoves(c: Config, s: State, w: int, ok: bool)
    requires ValidConfig(c) && |s.workers| == c.nThreads && WorkerCanStep(s, w) && WorkerFine(c, s, w)
    ensures WrittenUpto(c, WorkerNext(c, s, w, ok).workers[w], w) ==
      WrittenUpto(c, s.workers[w], w) + (if s.workers[w].Writing? then c.nThreads else 0)
  {
    hide Lane;
    hide Bumped;
  }

  lemma WrittenUptoMoves(c: Config, s: State, w: int, ok: bool)
    requires ValidConfig(c) && |s.workers| == c.nThreads && WorkerCanStep(s, w) && WorkerFine(c, s, w)
    ensures WrittenUpto(c, WorkerNext(c, s, w, ok).workers[w], w) ==
      WrittenUpto(c, s.workers[w], w) + (if s.workers[w].Writing? then c.nThreads else 0)
    ensures WorkerNext(c, s, w, ok).written == if s.workers[w].Writing? then Bumped(s.written, s.workers[w].row) else s.written
    ensures forall v :: 0 <= v < c.nThreads && v != w ==> WorkerNext(c, s, w, ok).workers[v] == s.workers[v]
  {
    hide WorkerNext;
    hide WrittenUpto;
    UptoMoves(c, s, w, ok);
    OnlyWritingWrites(c, s, w, ok);
  }

  lemma RowsStayFine(c: Config, s: State, w: int, ok: bool)
    requires Inv(c, s) && WorkerCanStep(s, w)
    ensures RowsFine(c, WorkerNext(c, s, w, ok))
  {
    var s' := WorkerNext(c, s, w, ok);
    var pc := s.workers[w];
    assert WorkerFine(c, s, w);
    WrittenUptoMoves(c, s, w, ok);
    LaneInRange(c);
    forall r | 0 <= r < c.nYSize && pc.Writing? && Lane(c, r) == w && pc.row <= r < pc.row + c.nThreads
      ensures r == pc.row
    {
      SameResidue(pc.row, r, c.nThreads);
    }
    hide Lane;
    hide WorkerNext;
    hide WorkerFine;
    forall r | 0 <= r < c.nYSize
      ensures s'.written[r] == if r < WrittenUpto(c, s'.workers[Lane(c, r)], Lane(c, r)) then 1 else 0
    {
      assert s.written[r] == if r < WrittenUpto(c, s.workers[Lane(c, r)], Lane(c, r)) then 1 else 0;
    }
  }

  /** Unless the run is being stopped, only the increment moves the mark of counted rows. */
  lemma CountedUptoMoves(c: Config, s: State, w: int, ok: bool)
    requires ValidConfig(c) && |s.workers| == c.nThreads && WorkerCanStep(s, w) && WorkerFine(c, s, w)
    requires !WorkerNext(c, s, w, ok).stop
    ensures CountedUpto(c, WorkerNext(c, s, w, ok).workers[w], w) ==
      CountedUpto(c, s.workers[w], w) + (if s.workers[w].Locked? then c.nThreads else 0)
    ensures WorkerNext(c, s, w, ok).counter == s.counter + (if s.workers[w].Locked? then 1 else 0)
    ensures s.workers[w].Locked? ==> s.workers[w].why.RowDone?
    ensures forall v :: 0 <= v < c.nThreads && v != w ==> WorkerNext(c, s, w, ok).workers[v] == s.workers[v]
    ensures !s.stop
  {
    hide Lane;
  }

  /** Counting a row adds it, and nothing else, to the counted rows. */
  lemma CountingOneRow(c: Config, s: State, s': State, w: int, row: int)
    requires ValidConfig(c) && |s.workers| == |s'.workers| == c.nThreads && 0 <= w < c.nThreads
    requires forall v :: 0 <= v < c.nThreads && v != w ==> s'.workers[v] == s.workers[v]
    requires 0 <= row < c.nYSize && Lane(c, row) == w && CountedUpto(c, s.workers[w], w) == row
    requires CountedUpto(c, s'.workers[w], w) == row + c.nThreads
    ensures CountedRows(c, s') == CountedRows(c, s) + {row} && row !in CountedRows(c, s)
  {
    LaneInRange(c);
    hide CountedUpto;
    forall r | 0 <= r < c.nYSize
      ensures r in CountedRows(c, s') <==> r in CountedRows(c, s) || r == row
    {
      if Lane(c, r) == w && row <= r < row + c.nThreads {
        SameResidue(row, r, c.nThreads);
      }
    }
  }

  lemma CountingNothing(c: Config, s: State, s': State, w: int)
    requires ValidConfig(c) && |s.workers| == |s'.workers| == c.nThreads && 0 <= w < c.nThreads
    requires forall v :: 0 <= v < c.nThreads && v != w ==> s'.workers[v] == s.workers[v]
    requires CountedUpto(c, s'.workers[w], w) == CountedUpto(c, s.workers[w], w)
    ensures CountedRows(c, s') == CountedRows(c, s)
  {
    LaneInRange(c);
    hide CountedUpto;
    hide Lane;
  }

  lemma LockedRow(c: Config, s: State, w: int)
    requires ValidConfig(c) && |s.workers| == c.nThreads && 0 <= w < c.nThreads && WorkerFine(c, s, w)
    requires s.workers[w].Locked? && s.workers[w].why.RowDone?
    ensures var row := s.workers[w].why.row;
      0 <= row < c.nYSize && Lane(c, row) == w && CountedUpto(c, s.workers[w], w) == row
  {
    hide Lane;
  }

  lemma CounterStaysFine(c: Config, s: State, w: int, ok: bool)
    requires Inv(c, s) && WorkerCanStep(s, w)
    ensures CounterFine(c, WorkerNext(c, s, w, ok))
  {
    hide MainFine;
    hide SignalPromised;
    hide TroubleReported;
    hide RowsFine;
    hide WorkerNext;
    hide WorkerFine;
    hide CountedUpto;
    hide CountedRows;
    hide Lane;
    var s' := WorkerNext(c, s, w, ok);
    if !s'.stop {
      CountedUptoMoves(c, s, w, ok);
      if s.workers[w].Locked? {
        LockedRow(c, s, w);
        CountingOneRow(c, s, s', w, s.workers[w].why.row);
      } else {
        CountingNothing(c, s, s', w);
      }
    }
  }

  lemma WorkerStepInv(c: Config, s: State, w: int, ok: bool)
    requires Inv(c, s) && WorkerCanStep(s, w)
    ensures Inv(c, WorkerNext(c, s, w, ok))
  {
    WorkersStayFine(c, s, w, ok);
    MainStaysFine(c, s, w, ok);
    PromiseKept(c, s, w, ok);
    TroubleStaysReported(c, s, w, ok);
    RowsStayFine(c, s, w, ok);
    CounterStaysFine(c, s, w, ok);
  }

  lemma MainKeepsWorkersFine(c: Config, s: State, ok: bool)
    requires Inv(c, s) && MainCanStep(s)
    ensures forall w :: 0 <= w < c.nThreads ==> WorkerFine(c, MainNext(c, s, ok), w)
  {
    hide RowsFine;
    hide CounterFine;
    hide SignalPromised;
    hide TroubleReported;
    hide Lane;
    var s' := MainNext(c, s, ok);
    forall w | 0 <= w < c.nThreads
      ensures WorkerFine(c, s', w)
    {
      assert WorkerFine(c, s, w);
    }
  }

  lemma MainKeepsMainFine(c: Config, s: State, ok: bool)
    requires Inv(c, s) && MainCanStep(s)
    ensures MainFine(c, MainNext(c, s, ok)) && SignalPromised(c, MainNext(c, s, ok)) && TroubleReported(MainNext(c, s, ok))
  {
    hide RowsFine;
    hide CounterFine;
    hide Lane;
    var s' := MainNext(c, s, ok);
    if s.main == GoingToWait && s.stop {
      var v :| 0 <= v < |s.workers| && OwesStopSignal(s.workers[v]);
      assert OwesStopSignal(s'.workers[v]);
    }
    if s.trouble && !s.stop && !s.main.Refused? {
      var v :| 0 <= v < |s.workers| && s.workers[v].Stopping?;
      assert s'.workers[v].Stopping?;
    }
  }

  /** The main thread starts workers, and otherwise leaves their rows alone. */
  lemma MainMovesNoRow(c: Config, s: State, ok: bool, w: int)
    requires ValidConfig(c) && |s.workers| == c.nThreads && MainFine(c, s) && MainCanStep(s) && 0 <= w < c.nThreads
    ensures var s' := MainNext(c, s, ok);
      && |s'.workers| == c.nThreads && s'.written == s.written && s'.counter == s.counter && (s.stop ==> s'.stop)
      && WrittenUpto(c, s'.workers[w], w) == WrittenUpto(c, s.workers[w], w)
      && CountedUpto(c, s'.workers[w], w) == CountedUpto(c, s.workers[w], w)
  {
  }

  lemma MainKeepsRowsFine(c: Config, s: State, ok: bool)
    requires Inv(c, s) && MainCanStep(s)
    ensures RowsFine(c, MainNext(c, s, ok)) && CounterFine(c, MainNext(c, s, ok))
  {
    hide MainFine;
    hide SignalPromised;
    hide TroubleReported;
    hide MainNext;
    hide WrittenUpto;
    hide CountedUpto;
    hide Lane;
    hide WorkerFine;
    var s' := MainNext(c, s, ok);
    LaneInRange(c);
    MainMovesNoRow(c, s, ok, 0);
    forall w | 0 <= w < c.nThreads
      ensures WrittenUpto(c, s'.workers[w], w) == WrittenUpto(c, s.workers[w], w)
      ensures CountedUpto(c, s'.workers[w], w) == CountedUpto(c, s.workers[w], w)
    {
      MainMovesNoRow(c, s, ok, w);
    }
    assert CountedRows(c, s') == CountedRows(c, s);
  }

  lemma MainStepInv(c: Config, s: State, ok: bool)
    requires Inv(c, s) && MainCanStep(s)
    ensures Inv(c, MainNext(c, s, ok))
  {
    MainKeepsWorkersFine(c, s, ok);
    MainKeepsMainFine(c, s, ok);
    MainKeepsRowsFine(c, s, ok);
  }

  lemma SpuriousWakeInv(c: Config, s: State, s': State)
    requires Inv(c, s) && SpuriousWake(s, s')
    ensures Inv(c, s')
  {
    forall w | 0 <= w < c.nThreads
      ensures WorkerFine(c, s', w)
    {
      assert WorkerFine(c, s, w);
    }
    assert CountedRows(c, s') == CountedRows(c, s);
  }

  lemma StepInv(c: Config, s: State, s': State)
    requires Inv(c, s) && Step(c, s, s')
    ensures Inv(c, s')
  {
    if exists w, ok :: WorkerCanStep(s, w) && s' == WorkerNext(c, s, w, ok) {
      var w, ok :| WorkerCanStep(s, w) && s' == WorkerNext(c, s, w, ok);
      WorkerStepInv(c, s, w, ok);
    } else if exists ok :: MainCanStep(s) && s' == MainNext(c, s, ok) {
      var ok :| MainCanStep(s) && s' == MainNext(c, s, ok);
      MainStepInv(c, s, ok);
    } else {
      SpuriousWakeInv(c, s, s');
    }
  }

  /** The invariant holds in every state of every run. */
  lemma {:induction false} RunInv(c: Config, run: seq<State>, i: nat)
    requires ValidConfig(c) && IsRun(c, run) && i < |run|
    ensures Inv(c, run[i])
  {
    if i == 0 {
      InitInv(c);
    } else {
      RunInv(c, run, i - 1);
      assert Step(c, run[i - 1], run[i - 1 + 1]);
      StepInv(c, run[i - 1], run[i]);
    }
  }
}
