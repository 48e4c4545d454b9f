/**
 All workers of GetResult and the waiting thread, step by step under an arbitrary scheduler
 (common/src/handler/UnlockHandler.cpp).  A step is one access to what the threads share.
 */
module UnlockRun {
  import opened Options
  import opened UnlockResults
  import opened UnlockStatus

  datatype Worker =
    | Running                                               // in RunServer
    | Finished(a: Arrival)                                  // has its result, wants resultMutex
    | Merged(a: Arrival)                                    // holds resultMutex, result merged
    | Counted(a: Arrival, last: bool)                       // holds resultMutex, counted
    | Reporting(text: UnlockState, last: bool, show: bool)  // resultMutex released, may have to print
    | WantsMutex                                            // the last worker, about to lock mutex
    | Notifying                                             // the last worker, holds mutex
    | Ended

  datatype Main =
    | WantsLock   // about to lock mutex, at first and after every wake-up
    | Checking    // holds mutex, evaluates the predicate
    | Blocking    // holds mutex, the predicate was false
    | Waiting     // blocked in the condition variable, mutex released
    | Proceeding  // the predicate was true; joins the workers
    | Returned

  datatype Holder = Nobody | MainThread | WorkerThread(w: nat)

  datatype State = State(
    workers: seq<Worker>,
    main: Main,
    stored: UnlockResult,
    completed: nat,
    resultMutex: Option<nat>,
    mutex: Holder,
    board: Board,
    lastOne: Option<nat>,      // the worker that completed the count
    arrivals: seq<Arrival>)    // in the order of merging

  datatype Step =
    | ShowStep(w: nat, phase: UnlockPhase)
    | FailStep(w: nat, text: string)
    | FinishStep(w: nat, a: Arrival)
    | MergeStep(w: nat)
    | CountStep(w: nat)
    | SettleStep(w: nat)
    | ReportStep(w: nat)
    | LockStep(w: nat)
    | NotifyStep(w: nat)
    | MainLock
    | MainCheck
    | MainBlock
    | SpuriousWakeup
    | MainJoin
  {
    predicate ByWorker() {
      !(MainLock? || MainCheck? || MainBlock? || SpuriousWakeup? || MainJoin?)
    }
  }

  function Start(n: nat): State
    requires n > 0
  {
    State(seq(n, _ => Running), WantsLock, NO_RESULT, 0, None, Nobody, FRESH, None, [])
  }

  predicate Enabled(s: State, t: Step) {
    && (t.ByWorker() ==> t.w < |s.workers|)
    && match t
       case ShowStep(w, _) => s.workers[w].Running?
       case FailStep(w, _) => s.workers[w].Running?
       case FinishStep(w, a) => s.workers[w].Running? && a.result.state != UNKNOWN
       case MergeStep(w) => s.workers[w].Finished? && s.resultMutex.None?
       case CountStep(w) => s.workers[w].Merged?
       case SettleStep(w) => s.workers[w].Counted?
       case ReportStep(w) => s.workers[w].Reporting?
       case LockStep(w) => s.workers[w].WantsMutex? && s.mutex == Nobody
       case NotifyStep(w) => s.workers[w].Notifying?
       case MainLock => s.main == WantsLock && s.mutex == Nobody
       case MainCheck => s.main == Checking
       case MainBlock => s.main == Blocking
       case SpuriousWakeup => s.main == Waiting
       case MainJoin => s.main == Proceeding && forall w :: 0 <= w < |s.workers| ==> s.workers[w].Ended?
  }

  function Settled(s: State, a: Arrival, last: bool): UnlockResult {
    if last && s.stored.state != SUCCESS then StoreLast(s.stored, a) else s.stored
  }

  function Apply(s: State, t: Step): State
    requires Enabled(s, t)
  {
    match t
    case ShowStep(w, phase) => s.(board := ShowPhase(s.board, w, phase))
    case FailStep(w, text) => s.(board := ShowLast(s.board, ErrorText(text)))
    case FinishStep(w, a) => s.(workers := s.workers[w := Finished(a)])
    case MergeStep(w) =>
      var a := s.workers[w].a;
      s.(workers := s.workers[w := Merged(a)], resultMutex := Some(w),
         stored := Store(s.stored, a), arrivals := s.arrivals + [a])
    case CountStep(w) =>
      var last := s.completed + 1 == |s.workers|;
      s.(workers := s.workers[w := Counted(s.workers[w].a, last)], completed := s.completed + 1,
         lastOne := if last then Some(w) else s.lastOne)
    case SettleStep(w) =>
      var a, last := s.workers[w].a, s.workers[w].last;
      var stored := Settled(s, a, last);
      var show := a.result.state == SUCCESS || (last && s.stored.state != SUCCESS);
      s.(workers := s.workers[w := Reporting(stored.state, last, show)], resultMutex := None, stored := stored)
    case ReportStep(w) =>
      s.(workers := s.workers[w := if s.workers[w].last then WantsMutex else Ended],
         board := if s.workers[w].show then ShowLast(s.board, StateText(s.workers[w].text)) else s.board)
    case LockStep(w) => s.(workers := s.workers[w := Notifying], mutex := WorkerThread(w))
    case NotifyStep(w) =>
      s.(workers := s.workers[w := Ended], mutex := Nobody, main := if s.main == Waiting then WantsLock else s.main)
    case MainLock => s.(main := Checking, mutex := MainThread)
    case MainCheck =>
      if s.completed == |s.workers| then s.(main := Proceeding, mutex := Nobody) else s.(main := Blocking)
    case MainBlock => s.(main := Waiting, mutex := Nobody)
    case SpuriousWakeup => s.(main := WantsLock)
    case MainJoin => s.(main := Returned)
  }

  // ---- counting ----

  function Stage(w: Worker): nat {
    match w
    case Running => 0
    case Finished(_) => 1
    case Merged(_) => 2
    case Counted(_, _) => 3
    case Reporting(_, _, _) => 4
    case WantsMutex => 5
    case Notifying => 6
    case Ended => 7
  }

  /** How many workers have come to a stage. */
  function Passed(ws: seq<Worker>, stage: nat): (k: nat)
    ensures k <= |ws|
  {
    if ws == [] then 0
    else Passed(ws[..|ws| - 1], stage) + (if Stage(ws[|ws| - 1]) >= stage then 1 else 0)
  }

  lemma {:induction false} PassedUpdate(ws: seq<Worker>, w: nat, v: Worker, stage: nat)
    requires w < |ws|
    ensures Passed(ws[w := v], stage)
         == Passed(ws, stage) + (if Stage(v) >= stage then 1 else 0) - (if Stage(ws[w]) >= stage then 1 else 0)
  {
    hide Stage;
    var k := |ws| - 1;
    if w < k {
      assert ws[w := v][..k] == ws[..k][w := v];
      PassedUpdate(ws[..k], w, v, stage);
    } else {
      assert ws[w := v][..k] == ws[..k];
    }
  }

  lemma {:induction false} AllPassed(ws: seq<Worker>, stage: nat)
    requires Passed(ws, stage) == |ws|
    ensures forall w :: 0 <= w < |ws| ==> Stage(ws[w]) >= stage
  {
    hide Stage;
    if ws != [] {
      AllPassed(ws[..|ws| - 1], stage);
    }
  }

  lemma {:induction false} NonePassed(n: nat, stage: nat)
    requires stage > 0
    ensures Passed(seq(n, _ => Running), stage) == 0
  {
    if n > 0 {
      assert seq(n, _ => Running)[..n - 1] == seq(n - 1, _ => Running);
      NonePassed(n - 1, stage);
    }
  }

  // ---- the invariant ----

  ghost predicate Locks(s: State) {
    && s.workers != []
    && (s.resultMutex.Some? ==> s.resultMutex.value < |s.workers|)
    && (forall w :: 0 <= w < |s.workers| ==>
          (s.resultMutex == Some(w) <==> s.workers[w].Merged? || s.workers[w].Counted?))
    && (s.mutex.WorkerThread? ==> s.mutex.w < |s.workers|)
    && (s.mutex == MainThread <==> s.main == Checking || s.main == Blocking)
    && (forall w :: 0 <= w < |s.workers| ==> (s.mutex == WorkerThread(w) <==> s.workers[w].Notifying?))
  }

  ghost predicate Counts(s: State) {
    && s.completed == Passed(s.workers, 3)
    && |s.arrivals| == Passed(s.workers, 2)
  }

  predicate IsLast(w: Worker) {
    (w.Counted? && w.last) || (w.Reporting? && w.last) || w.WantsMutex? || w.Notifying?
  }

  ghost predicate LastOne(s: State) {
    && (s.lastOne.Some? <==> s.completed == |s.workers|)
    && (s.lastOne.Some? ==> s.lastOne.value < |s.workers|)
    && forall w :: 0 <= w < |s.workers| ==>
         (IsLast(s.workers[w]) ==> s.lastOne == Some(w)) &&
         (s.lastOne == Some(w) ==> IsLast(s.workers[w]) || s.workers[w].Ended?)
  }

  /** The last worker has left the critical section: the result is final. */
  predicate IsFinal(s: State) {
    s.lastOne.Some? && s.lastOne.value < |s.workers| && Stage(s.workers[s.lastOne.value]) >= 4
  }

  ghost predicate Results(s: State) {
    && AllKnown(s.arrivals)
    && s.stored == (if IsFinal(s) then Final(s.arrivals) else Stored(s.arrivals))
    && forall w :: 0 <= w < |s.workers| ==>
         (s.workers[w].Finished? ==> s.workers[w].a.result.state != UNKNOWN) &&
         (s.workers[w].Merged? || s.workers[w].Counted? ==>
            s.arrivals != [] && s.arrivals[|s.arrivals| - 1] == s.workers[w].a)
  }

  /** While the main thread waits, the notification is still to come. */
  ghost predicate NoLostWakeup(s: State) {
    && (s.main == Blocking || s.main == Waiting ==>
          s.lastOne.None? || (s.lastOne.value < |s.workers| && !s.workers[s.lastOne.value].Ended?))
    && (s.main == Proceeding || s.main == Returned ==> s.completed == |s.workers|)
    && (s.main == Returned ==> forall w :: 0 <= w < |s.workers| ==> s.workers[w].Ended?)
  }

  ghost predicate Invariant(s: State) {
    Locks(s) && Counts(s) && LastOne(s) && Results(s) && NoLostWakeup(s)
  }

  lemma StartInvariant(n: nat)
    requires n > 0
    ensures Invariant(Start(n))
  {
    NonePassed(n, 2);
    NonePassed(n, 3);
  }

  lemma LocksKept(s: State, t: Step)
    requires Locks(s) && LastOne(s) && Enabled(s, t)
    ensures Locks(Apply(s, t))
  {
    hide ShowPhase, ShowLast, Store, Settled, Passed;
  }

  lemma CountsKept(s: State, t: Step)
    requires Counts(s) && Enabled(s, t)
    ensures Counts(Apply(s, t))
  {
    hide ShowPhase, ShowLast, Store, Settled, Passed;
    var s' := Apply(s, t);
    if t.ByWorker() {
      PassedUpdate(s.workers, t.w, s'.workers[t.w], 2);
      PassedUpdate(s.workers, t.w, s'.workers[t.w], 3);
    }
  }

  lemma LastOneKept(s: State, t: Step)
    requires Locks(s) && Counts(s) && LastOne(s) && Enabled(s, t)
    ensures LastOne(Apply(s, t))
  {
    hide ShowPhase, ShowLast, Store, Settled, Passed;
    EverybodyCounted(s);
    var s' := Apply(s, t);
    CountsKept(s, t);
  }

  /** With the count complete nobody is left that has not counted itself. */
  lemma EverybodyCounted(s: State)
    requires Counts(s)
    ensures s.completed == |s.workers| ==> forall w :: 0 <= w < |s.workers| ==> Stage(s.workers[w]) >= 3
  {
    hide Stage;
    if s.completed == |s.workers| {
      AllPassed(s.workers, 3);
    }
  }

  lemma OneMoreStored(arrivals: seq<Arrival>, a: Arrival)
    ensures Stored(arrivals + [a]) == Store(Stored(arrivals), a)
    ensures AllKnown(arrivals) && a.result.state != UNKNOWN ==> AllKnown(arrivals + [a])
  {
    assert (arrivals + [a])[..|arrivals|] == arrivals;
  }

  lemma MergeKeepsResults(s: State, w: nat)
    requires Locks(s) && Counts(s) && LastOne(s) && Results(s) && Enabled(s, MergeStep(w))
    ensures Results(Apply(s, MergeStep(w)))
  {
    hide Store, StoreLast, Stored, Final, Passed, AllKnown;
    EverybodyCounted(s);
    OneMoreStored(s.arrivals, s.workers[w].a);
  }

  lemma SettleKeepsResults(s: State, w: nat)
    requires Locks(s) && Counts(s) && LastOne(s) && Results(s) && Enabled(s, SettleStep(w))
    ensures Results(Apply(s, SettleStep(w)))
  {
    hide Stored, Passed, AllKnown;
    EverybodyCounted(s);
  }

  lemma WorkersKeepResults(s: State, t: Step)
    requires Locks(s) && Counts(s) && LastOne(s) && Results(s) && Enabled(s, t)
    requires t.ByWorker() && !t.MergeStep? && !t.SettleStep?
    ensures Results(Apply(s, t))
  {
    hide ShowPhase, ShowLast, Store, StoreLast, Stored, Final, Passed, AllKnown;
    EverybodyCounted(s);
  }

  lemma ResultsKept(s: State, t: Step)
    requires Locks(s) && Counts(s) && LastOne(s) && Results(s) && Enabled(s, t)
    ensures Results(Apply(s, t))
  {
    hide ShowPhase, ShowLast, Store, StoreLast, Stored, Final, Passed, AllKnown;
    if t.MergeStep? {
      MergeKeepsResults(s, t.w);
    } else if t.SettleStep? {
      SettleKeepsResults(s, t.w);
    } else if t.ByWorker() {
      WorkersKeepResults(s, t);
    }
  }

  lemma NoLostWakeupKept(s: State, t: Step)
    requires Locks(s) && Counts(s) && LastOne(s) && NoLostWakeup(s) && Enabled(s, t)
    ensures NoLostWakeup(Apply(s, t))
  {
    hide ShowPhase, ShowLast, Store, Settled, Passed;
    EverybodyCounted(s);
  }

  lemma InvariantKept(s: State, t: Step)
    requires Invariant(s) && Enabled(s, t)
    ensures Invariant(Apply(s, t))
  {
    hide Locks, Counts, LastOne, Results, NoLostWakeup, Apply, Enabled;
    LocksKept(s, t);
    CountsKept(s, t);
    LastOneKept(s, t);
    ResultsKept(s, t);
    NoLostWakeupKept(s, t);
  }

  // ---- messages ----

  /** The worker will still print its message, or find one printed. */
  predicate Owes(w: Worker) {
    || ((w.Merged? || w.Counted?) && w.a.result.state == SUCCESS)
    || (w.Reporting? && w.show)
  }

  predicate Fits(s: State, text: LastText) {
    || text.ErrorText?
    || (text.state == SUCCESS && s.stored.state == SUCCESS)
    || (IsFinal(s) && text.state == s.stored.state)
  }

  ghost predicate SuccessAnnounced(s: State) {
    s.stored.state == SUCCESS ==> s.board.done || exists w :: 0 <= w < |s.workers| && Owes(s.workers[w])
  }

  ghost predicate FinalAnnounced(s: State) {
    IsFinal(s) && s.stored.state != SUCCESS ==> s.board.done || Owes(s.workers[s.lastOne.value])
  }

  /** The message that closed the board. */
  function LastShown(b: Board): LastText {
    if b.printed != [] && b.printed[|b.printed| - 1].LastMessage? then b.printed[|b.printed| - 1].text
    else ErrorText("")
  }

  ghost predicate Truthful(s: State) {
    && Closed(s.board) && Changing(s.board)
    && (forall w :: 0 <= w < |s.workers| && s.workers[w].Reporting? && s.workers[w].show ==>
          Fits(s, StateText(s.workers[w].text)))
    && (s.board.done ==> Fits(s, LastShown(s.board)))
  }

  ghost predicate Messages(s: State) {
    SuccessAnnounced(s) && FinalAnnounced(s) && Truthful(s)
  }

  /** What fits goes on fitting. */
  lemma FitsKept(s: State, t: Step, text: LastText)
    requires Invariant(s) && Enabled(s, t) && Fits(s, text)
    ensures Fits(Apply(s, t), text)
  {
    hide ShowPhase, ShowLast, Stored, Final, Passed, AllKnown, Results, NoLostWakeup;
    EverybodyCounted(s);
  }

  lemma OwesKept(s: State, t: Step, w: nat)
    requires Enabled(s, t) && w < |s.workers| && Owes(s.workers[w])
    ensures var s' := Apply(s, t);
            |s'.workers| == |s.workers| && (s'.board.done || Owes(s'.workers[w]))
  {
    hide ShowPhase, Store, Settled;
  }

  /** Only a merge brings a success; a worker that settles with one has merged it before. */
  lemma SuccessArrives(s: State, t: Step)
    requires Enabled(s, t) && s.stored.state != SUCCESS && Results(s) && Locks(s)
    ensures Apply(s, t).stored.state == SUCCESS ==> t.MergeStep? && Owes(Apply(s, t).workers[t.w])
  {
    if t.SettleStep? {
      StoredSuccess(s.arrivals);
    }
    hide ShowPhase, ShowLast, Final, Stored, AllKnown;
  }

  lemma SuccessAnnouncedKept(s: State, t: Step)
    requires Invariant(s) && SuccessAnnounced(s) && Enabled(s, t)
    ensures SuccessAnnounced(Apply(s, t))
  {
    hide Owes, ShowLast, ShowPhase, Stored, Final, Passed, AllKnown, Locks, Counts, Results, NoLostWakeup, LastOne;
    var s' := Apply(s, t);
    if s.stored.state != SUCCESS {
      SuccessArrives(s, t);
    } else if s.board.done {
      DoneStays(s, t);
    } else {
      var w :| 0 <= w < |s.workers| && Owes(s.workers[w]);
      OwesKept(s, t, w);
    }
  }

  lemma DoneStays(s: State, t: Step)
    requires Enabled(s, t) && s.board.done
    ensures Apply(s, t).board.done
  {
  }

  lemma FinalAnnouncedKept(s: State, t: Step)
    requires Invariant(s) && FinalAnnounced(s) && Enabled(s, t)
    ensures FinalAnnounced(Apply(s, t))
  {
    hide Stored, Final, Passed, AllKnown, Results, NoLostWakeup;
    EverybodyCounted(s);
  }

  lemma TruthfulKept(s: State, t: Step)
    requires Invariant(s) && Truthful(s) && Enabled(s, t)
    ensures Truthful(Apply(s, t))
  {
    hide Fits, ShowPhase, ShowLast, Stored, Final, Passed, AllKnown, Results, NoLostWakeup, Closed;
    hide Changing, LastOne, Counts, Locks, LastShown;
    var s' := Apply(s, t);
    forall text | Fits(s, text) ensures Fits(s', text) {
      FitsKept(s, t, text);
    }
    BoardKept(s, t);
    ErrorFits(s');
    if t.SettleStep? {
      SettledFits(s, t.w);
    }
    forall w | 0 <= w < |s'.workers| && s'.workers[w].Reporting? && s'.workers[w].show
      ensures Fits(s', StateText(s'.workers[w].text))
    {
      if !(t.SettleStep? && t.w == w) {
        assert s'.workers[w] == s.workers[w];
      }
    }
  }

  lemma ErrorFits(s: State)
    ensures forall text: string :: Fits(s, ErrorText(text))
  {
  }

  /** A message that is printed while the board is open is the last one; a closed board stays as it is. */
  lemma BoardKept(s: State, t: Step)
    requires Enabled(s, t) && Closed(s.board) && Changing(s.board)
    ensures var b, c := s.board, Apply(s, t).board;
            && Closed(c) && Changing(c)
            && (b.done ==> c == b)
            && (c.done && !b.done ==>
                  LastShown(c) ==
                    if t.ReportStep? && s.workers[t.w].show then StateText(s.workers[t.w].text)
                    else ErrorText(if t.FailStep? then t.text else ""))
  {
    hide Closed, Changing, Settled, Store;
    match t
    case ShowStep(w, phase) => ShowPhaseKeeps(s.board, w, phase);
    case FailStep(w, text) => ShowLastKeeps(s.board, ErrorText(text));
    case ReportStep(w) => ShowLastKeeps(s.board, StateText(s.workers[w].text));
    case _ =>
  }

  lemma SettledFits(s: State, w: nat)
    requires Invariant(s) && Enabled(s, SettleStep(w))
    ensures var s' := Apply(s, SettleStep(w));
            s'.workers[w].show ==> Fits(s', StateText(s'.workers[w].text))
  {
    hide Passed, AllKnown, NoLostWakeup;
    StoredSuccess(s.arrivals);
    hide Stored;
  }

  lemma StoredSuccess(arrivals: seq<Arrival>)
    ensures arrivals != [] && arrivals[|arrivals| - 1].result.state == SUCCESS ==>
              Stored(arrivals).state == SUCCESS && Final(arrivals).state == SUCCESS
  {
  }

  lemma MessagesKept(s: State, t: Step)
    requires Invariant(s) && Messages(s) && Enabled(s, t)
    ensures Messages(Apply(s, t))
  {
    hide Invariant, SuccessAnnounced, FinalAnnounced, Truthful, Apply, Enabled;
    SuccessAnnouncedKept(s, t);
    FinalAnnouncedKept(s, t);
    TruthfulKept(s, t);
  }

  // ---- runs ----

  predicate CanRun(s: State, steps: seq<Step>)
    decreases |steps|
  {
    steps == [] || (Enabled(s, steps[0]) && CanRun(Apply(s, steps[0]), steps[1..]))
  }

  function After(s: State, steps: seq<Step>): State
    requires CanRun(s, steps)
    decreases |steps|
  {
    if steps == [] then s else After(Apply(s, steps[0]), steps[1..])
  }

  lemma {:induction false} RunsKeep(s: State, steps: seq<Step>)
    requires Invariant(s) && Messages(s) && CanRun(s, steps)
    ensures Invariant(After(s, steps)) && Messages(After(s, steps)) && |After(s, steps).workers| == |s.workers|
    decreases |steps|
  {
    if steps != [] {
      InvariantKept(s, steps[0]);
      MessagesKept(s, steps[0]);
      SameWorkers(s, steps[0]);
      hide Invariant, Messages, Apply, Enabled;
      RunsKeep(Apply(s, steps[0]), steps[1..]);
    }
  }

  lemma SameWorkers(s: State, t: Step)
    requires Enabled(s, t)
    ensures |Apply(s, t).workers| == |s.workers|
  {
  }

  /**
   Any run of n workers: whenever GetResult has returned, every worker has merged its result, what it
   returns is the choice among them, and exactly one last message has been printed, after all others:
   the text of the returned state, or an error that a connection reported itself.
   */
  lemma GetResultIsRight(n: nat, steps: seq<Step>)
    requires n > 0 && CanRun(Start(n), steps)
    ensures var s := After(Start(n), steps);
            && (s.main == Proceeding ==> s.completed == n)
            && (s.main == Returned ==>
                  && s.completed == |s.arrivals| == n && AllKnown(s.arrivals)
                  && s.stored == Chosen(s.arrivals) && s.stored.state != UNKNOWN
                  && s.board.done && Closed(s.board)
                  && Fits(s, LastShown(s.board)))
  {
    hide Start, Passed, Closed, Final, Stored, Chosen, AllKnown, Fits;
    StartInvariant(n);
    StartMessages(n);
    RunsKeep(Start(n), steps);
    var s := After(Start(n), steps);
    StartSize(n);
    if s.main == Returned {
      EndedAreMerged(s);
      FinalIsChosen(s.arrivals);
    }
  }

  lemma StartMessages(n: nat)
    requires n > 0
    ensures Messages(Start(n))
  {
  }

  lemma StartSize(n: nat)
    requires n > 0
    ensures |Start(n).workers| == n
  {
  }

  lemma EndedAreMerged(s: State)
    requires Counts(s) && forall w :: 0 <= w < |s.workers| ==> s.workers[w].Ended?
    ensures |s.arrivals| == s.completed == |s.workers|
  {
    AllThere(s.workers, 2);
    AllThere(s.workers, 3);
  }

  lemma {:induction false} AllThere(ws: seq<Worker>, stage: nat)
    requires forall w :: 0 <= w < |ws| ==> Stage(ws[w]) >= stage
    ensures Passed(ws, stage) == |ws|
  {
    hide Stage;
    if ws != [] {
      AllThere(ws[..|ws| - 1], stage);
    }
  }

  // ---- no deadlock ----

  /**
   Steps that bring the run nearer to its end, as opposed to those a worker takes inside RunServer and
   spurious wake-ups.
   */
  predicate Advances(t: Step) {
    !t.ShowStep? && !t.FailStep? && !t.SpuriousWakeup?
  }

  ghost predicate CanAdvance(s: State) {
    exists t :: Enabled(s, t) && Advances(t)
  }

  lemma CanTake(s: State, t: Step)
    requires Enabled(s, t) && Advances(t)
    ensures CanAdvance(s)
  {
  }

  lemma MutexHolderCanGo(s: State)
    requires Locks(s) && s.mutex != Nobody
    ensures CanAdvance(s)
  {
    if s.mutex.WorkerThread? {
      CanTake(s, NotifyStep(s.mutex.w));
    } else {
      CanTake(s, if s.main == Checking then MainCheck else MainBlock);
    }
  }

  lemma ResultHolderCanGo(s: State)
    requires Locks(s) && s.resultMutex.Some?
    ensures CanAdvance(s)
  {
    var w := s.resultMutex.value;
    CanTake(s, if s.workers[w].Merged? then CountStep(w) else SettleStep(w));
  }

  lemma WorkerCanGo(s: State, w: nat)
    requires Locks(s) && w < |s.workers| && !s.workers[w].Running? && !s.workers[w].Ended?
    ensures CanAdvance(s)
  {
    hide CanAdvance;
    match s.workers[w]
    case Finished(_) =>
      if s.resultMutex.None? {
        CanTake(s, MergeStep(w));
      } else {
        ResultHolderCanGo(s);
      }
    case Merged(_) => CanTake(s, CountStep(w));
    case Counted(_, _) => CanTake(s, SettleStep(w));
    case Reporting(_, _, _) => CanTake(s, ReportStep(w));
    case WantsMutex =>
      if s.mutex == Nobody {
        CanTake(s, LockStep(w));
      } else {
        MutexHolderCanGo(s);
      }
    case Notifying => CanTake(s, NotifyStep(w));
  }

  /** Once no worker is in RunServer any more, somebody can advance until GetResult has returned. */
  lemma NoDeadlock(s: State)
    requires Invariant(s) && s.main != Returned
    requires forall w :: 0 <= w < |s.workers| ==> !s.workers[w].Running?
    ensures CanAdvance(s)
  {
    hide CanAdvance, Results, Passed;
    if w :| 0 <= w < |s.workers| && !s.workers[w].Ended? {
      WorkerCanGo(s, w);
    } else {
      EndedAreMerged(s);
      if s.mutex != Nobody {
        MutexHolderCanGo(s);
      } else {
        CanTake(s, if s.main == WantsLock then MainLock else MainJoin);
      }
    }
  }

  function MainRank(m: Main): nat {
    match m
    case WantsLock => 4
    case Checking => 3
    case Blocking => 2
    case Waiting => 1
    case Proceeding => 1
    case Returned => 0
  }

  function WorkersRank(ws: seq<Worker>): nat {
    if ws == [] then 0 else WorkersRank(ws[..|ws| - 1]) + 5 * (7 - Stage(ws[|ws| - 1]))
  }

  /** An upper bound on the steps still to be taken, not counting those that do not advance. */
  function Rank(s: State): nat {
    WorkersRank(s.workers) + MainRank(s.main)
  }

  lemma {:induction false} WorkersRankUpdate(ws: seq<Worker>, w: nat, v: Worker)
    requires w < |ws|
    ensures WorkersRank(ws[w := v]) == WorkersRank(ws) + 5 * (Stage(ws[w]) - Stage(v))
  {
    hide Stage;
    var k := |ws| - 1;
    if w < k {
      assert ws[w := v][..k] == ws[..k][w := v];
      WorkersRankUpdate(ws[..k], w, v);
    } else {
      assert ws[w := v][..k] == ws[..k];
    }
  }

  /** Every advance lowers the rank; a spurious wake-up raises it by three; nothing else changes it. */
  lemma RankFalls(s: State, t: Step)
    requires Enabled(s, t)
    ensures Advances(t) ==> Rank(Apply(s, t)) < Rank(s)
    ensures !Advances(t) ==> Rank(Apply(s, t)) == Rank(s) + if t.SpuriousWakeup? then 3 else 0
  {
    hide ShowPhase, ShowLast, Store, Settled, WorkersRank;
    var s' := Apply(s, t);
    if t.ByWorker() {
      WorkersRankUpdate(s.workers, t.w, s'.workers[t.w]);
    }
  }

  function Advancing(steps: seq<Step>): nat {
    if steps == [] then 0 else (if Advances(steps[0]) then 1 else 0) + Advancing(steps[1..])
  }

  function Spurious(steps: seq<Step>): nat {
    if steps == [] then 0 else (if steps[0].SpuriousWakeup? then 1 else 0) + Spurious(steps[1..])
  }

  /** So no run takes more advancing steps than the rank at its start and its spurious wake-ups allow. */
  lemma {:induction false} RunsAreBounded(s: State, steps: seq<Step>)
    requires CanRun(s, steps)
    ensures Advancing(steps) + Rank(After(s, steps)) <= Rank(s) + 3 * Spurious(steps)
    decreases |steps|
  {
    hide Rank, Advances, Apply, Enabled;
    if steps != [] {
      RankFalls(s, steps[0]);
      RunsAreBounded(Apply(s, steps[0]), steps[1..]);
    }
  }

  /**
   After any run: a waiting main thread will be notified, since the count is open or the last worker has
   not notified yet; and unless somebody is still in RunServer or GetResult has returned, a step is left.
   */
  lemma GetResultEnds(n: nat, steps: seq<Step>)
    requires n > 0 && CanRun(Start(n), steps)
    ensures var s := After(Start(n), steps);
            && |s.workers| == n
            && (s.main == Waiting ==>
                  s.completed < n || (s.lastOne.Some? && s.lastOne.value < n && IsLast(s.workers[s.lastOne.value])))
            && (s.main != Returned && (forall w :: 0 <= w < n ==> !s.workers[w].Running?) ==> CanAdvance(s))
  {
    hide Start, Passed, Results, CanAdvance, Messages, IsLast;
    StartInvariant(n);
    StartMessages(n);
    StartSize(n);
    RunsKeep(Start(n), steps);
    var s := After(Start(n), steps);
    if s.main != Returned && forall w :: 0 <= w < n ==> !s.workers[w].Running? {
      NoDeadlock(s);
    }
  }

  // ---- the critical section as the worker runs it ----

  /** The result and the counter that the workers share. */
  class SharedResult {
    var currentResult: UnlockResult
    var completed: nat

    constructor ()
      ensures currentResult == NO_RESULT && completed == 0
    {
      currentResult, completed := NO_RESULT, 0;
    }

    /** What a worker does between locking and unlocking resultMutex. */
    method Report(server: UnlockResult, isOtherClient: bool, numServers: nat)
      returns (finalState: UnlockState, isLast: bool, isFinalResult: bool)
      modifies this
      ensures completed == old(completed) + 1 && (isLast <==> completed == numServers)
      ensures var a := Arrival(server, isOtherClient);
              var merged := Store(old(currentResult), a);
              && currentResult == (if isLast && merged.state != SUCCESS then StoreLast(merged, a) else merged)
              && finalState == currentResult.state
              && (isFinalResult <==> server.state == SUCCESS || (isLast && merged.state != SUCCESS))
    {
      isFinalResult := server.state == SUCCESS;
      var storedState := currentResult.state;
      if server.state == SUCCESS || (IsPhoneAnswer(server.state) && storedState != SUCCESS) {
        currentResult := server;
      } else if !isOtherClient && storedState != SUCCESS && !IsPhoneAnswer(storedState) {
        currentResult := server;
      }
      completed := completed + 1;
      isLast := completed == numServers;
      storedState := currentResult.state;
      if isLast && storedState != SUCCESS {
        if storedState == UNKNOWN {
          currentResult := server;
        }
        isFinalResult := true;
      }
      finalState := currentResult.state;
    }
  }

  /** The three steps a worker takes with resultMutex locked come to what Report does. */
  lemma StepsOfReport(s: State, w: nat)
    requires Enabled(s, MergeStep(w))
    ensures CanRun(s, [MergeStep(w), CountStep(w), SettleStep(w)])
    ensures var s' := After(s, [MergeStep(w), CountStep(w), SettleStep(w)]);
            var a, merged, isLast := s.workers[w].a, Store(s.stored, s.workers[w].a), s.completed + 1 == |s.workers|;
            && s'.completed == s.completed + 1 && s'.resultMutex.None?
            && s'.stored == (if isLast && merged.state != SUCCESS then StoreLast(merged, a) else merged)
            && s'.workers == s.workers[w := Reporting(s'.stored.state, isLast,
                 a.result.state == SUCCESS || (isLast && merged.state != SUCCESS))]
  {
    hide Store, StoreLast;
    var s1 := Apply(s, MergeStep(w));
    var s2 := Apply(s1, CountStep(w));
    var s3 := Apply(s2, SettleStep(w));
    assert [MergeStep(w), CountStep(w), SettleStep(w)][1..] == [CountStep(w), SettleStep(w)];
    assert [CountStep(w), SettleStep(w)][1..] == [SettleStep(w)];
    assert CanRun(s3, []) && After(s3, []) == s3;
    assert CanRun(s2, [SettleStep(w)]) && After(s2, [SettleStep(w)]) == s3;
    assert CanRun(s1, [CountStep(w), SettleStep(w)]) && After(s1, [CountStep(w), SettleStep(w)]) == s3;
    assert s3.workers == s.workers[w := s3.workers[w]];
  }
}
