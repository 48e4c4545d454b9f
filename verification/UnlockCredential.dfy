/**
 The credential that hands an unlock to Windows at most once
 (natives/win_pulseunlock/src/CUnlockCredential.cpp): listener threads deliver and expire results while
 LogonUI, one call at a time, submits and resets them.  Sequence numbers keep the two apart.
 */
module UnlockCredential {
  import opened Options
  import opened Bytes
  import opened UnlockResults

  /** What _mutex protects. */
  datatype Core = Core(result: UnlockResult, sequence: nat, autoStartBlocked: bool)

  function SetData(c: Core, r: UnlockResult): Core {
    c.(result := r, sequence := (c.sequence + 1) % UINT64)
  }

  predicate Pending(c: Core, sequence: nat) {
    sequence == c.sequence && c.result.state == SUCCESS
  }

  function Expire(c: Core, sequence: nat): Core {
    if Pending(c, sequence) then c.(result := UnlockResult(TIMEOUT, "")) else c
  }

  function Finish(c: Core, sequence: nat, isSubmitted: bool, isCredUi: bool): Core {
    if Pending(c, sequence) then
      c.(result := if isSubmitted then NO_RESULT else UnlockResult(UNK_ERROR, ""),
         autoStartBlocked := isSubmitted && !isCredUi)
    else c
  }

  function Retry(c: Core): Core {
    c.(result := NO_RESULT, autoStartBlocked := false)
  }

  function Report(c: Core, hasLogonFailed: bool): Core {
    var hasUnlockFailed := hasLogonFailed && c.autoStartBlocked;
    c.(result := if hasUnlockFailed then UnlockResult(UNK_ERROR, "") else NO_RESULT,
       autoStartBlocked := hasUnlockFailed)
  }

  class CUnlockCredential {
    const isCredUi: bool
    var unlockResult: UnlockResult
    var unlockSequence: nat
    var isAutoStartBlocked: bool

    constructor (credUi: bool)
      ensures isCredUi == credUi && Value() == Core(NO_RESULT, 0, false)
    {
      isCredUi := credUi;
      unlockResult, unlockSequence, isAutoStartBlocked := NO_RESULT, 0, false;
    }

    function Value(): Core
      reads this
    {
      Core(unlockResult, unlockSequence, isAutoStartBlocked)
    }

    method ResetUnlockResult(r: UnlockResult)
      modifies `unlockResult
      ensures unlockResult == r
    {
      unlockResult := r;
    }

    /** A listener that was stopped delivers nothing and gets no sequence number. */
    method SetUnlockData(r: UnlockResult, isRunning: bool) returns (sequence: nat)
      modifies this
      ensures Value() == if isRunning then SetData(old(Value()), r) else old(Value())
      ensures sequence == if isRunning then unlockSequence else 0
    {
      if !isRunning {
        return 0;
      }
      ResetUnlockResult(r);
      unlockSequence := (unlockSequence + 1) % UINT64;
      return unlockSequence;
    }

    method IsUnlockPending(sequence: nat) returns (b: bool)
      ensures b <==> Pending(Value(), sequence)
    {
      return sequence == unlockSequence && unlockResult.state == SUCCESS;
    }

    method ExpireUnlockSuccess(sequence: nat)
      modifies this
      ensures Value() == Expire(old(Value()), sequence)
    {
      if sequence != unlockSequence || unlockResult.state != SUCCESS {
        return;
      }
      ResetUnlockResult(UnlockResult(TIMEOUT, ""));
    }

    /** The start of GetSerialization: the password to submit, and the sequence it was delivered under. */
    method ReadUnlock(typed: string) returns (password: Option<string>, isUnlockResult: bool, sequence: nat)
      ensures isUnlockResult <==> unlockResult.state == SUCCESS
      ensures isUnlockResult ==> password == Some(unlockResult.content) && Pending(Value(), sequence)
      ensures !isUnlockResult ==> password == if typed == "" then None else Some(typed)
    {
      if unlockResult.state == SUCCESS {
        return Some(unlockResult.content), true, unlockSequence;
      } else if |typed| >= 1 {
        return Some(typed), false, 0;
      }
      return None, false, 0;
    }

    method FinishUnlockSubmission(sequence: nat, isSubmitted: bool)
      modifies this
      ensures Value() == Finish(old(Value()), sequence, isSubmitted, isCredUi)
    {
      if sequence != unlockSequence || unlockResult.state != SUCCESS {
        return;
      }
      ResetUnlockResult(if isSubmitted then NO_RESULT else UnlockResult(UNK_ERROR, ""));
      isAutoStartBlocked := isSubmitted && !isCredUi;
    }

    method RetryClicked()
      modifies this
      ensures Value() == Retry(old(Value()))
    {
      ResetUnlockResult(NO_RESULT);
      isAutoStartBlocked := false;
    }

    method ReportResult(hasLogonFailed: bool)
      modifies this
      ensures Value() == Report(old(Value()), hasLogonFailed)
    {
      var hasUnlockFailed := hasLogonFailed && isAutoStartBlocked;
      ResetUnlockResult(if hasUnlockFailed then UnlockResult(UNK_ERROR, "") else NO_RESULT);
      isAutoStartBlocked := hasUnlockFailed;
    }
  }

  /** After a retry, a report or the end of a submission nothing is left to submit, whatever the number. */
  lemma NothingPending(c: Core, sequence: nat, hasLogonFailed: bool, isSubmitted: bool, isCredUi: bool, any: nat)
    ensures !Pending(Retry(c), any) && Retry(c).result == NO_RESULT
    ensures !Pending(Report(c, hasLogonFailed), any)
    ensures Report(c, hasLogonFailed).result.state in {UNKNOWN, UNK_ERROR}
    ensures Pending(c, sequence) ==> !Pending(Finish(c, sequence, isSubmitted, isCredUi), any)
    ensures !Pending(Expire(c, sequence), sequence)
    ensures !Pending(c, any) ==> !Pending(Expire(c, sequence), any)
  {
  }

  /** What is shown instead of a success that is gone, and what stays. */
  lemma ShownInstead(c: Core, sequence: nat, isSubmitted: bool, isCredUi: bool, hasLogonFailed: bool)
    ensures !Pending(c, sequence) ==> Expire(c, sequence) == c && Finish(c, sequence, isSubmitted, isCredUi) == c
    ensures Pending(c, sequence) ==> Expire(c, sequence).result.state == TIMEOUT
    ensures Pending(c, sequence) ==>
              Finish(c, sequence, isSubmitted, isCredUi).result.state == if isSubmitted then UNKNOWN else UNK_ERROR
    ensures Report(c, hasLogonFailed).result.state == UNK_ERROR <==> hasLogonFailed && c.autoStartBlocked
    ensures Expire(c, sequence).autoStartBlocked == c.autoStartBlocked
    ensures Expire(c, sequence).sequence == Finish(c, sequence, isSubmitted, isCredUi).sequence == c.sequence
    ensures Retry(c).sequence == Report(c, hasLogonFailed).sequence == c.sequence
  {
  }

  /** A delivered success can be submitted under the next number and under no other. */
  lemma DeliveredIsPending(c: Core, r: UnlockResult, any: nat)
    ensures Pending(SetData(c, r), any) <==> r.state == SUCCESS && any == (c.sequence + 1) % UINT64
    ensures SetData(c, r).result == r && SetData(c, r).autoStartBlocked == c.autoStartBlocked
  {
  }

  // ---- runs ----

  /** A submission under way: GetSerialization has read the result and not finished. */
  datatype Taken = Taken(count: nat, password: string)

  /**
   The credential, the submission under way, and the history: how many results were delivered, which
   successes, and which were submitted.
   */
  datatype State = State(
    core: Core, isCredUi: bool, taken: Option<Taken>,
    count: nat, delivered: map<nat, string>, submitted: seq<Taken>)

  datatype Step =
    | DeliverStep(r: UnlockResult, isRunning: bool)
    | ExpireStep(sequence: nat)
    | TakeStep
    | FinishStep(isSubmitted: bool)
    | RetryStep
    | ReportStep(hasLogonFailed: bool)

  function Start(isCredUi: bool): State {
    State(Core(NO_RESULT, 0, false), isCredUi, None, 0, map[], [])
  }

  /** LogonUI makes one call at a time; listeners come in between. */
  predicate Enabled(s: State, t: Step) {
    match t
    case DeliverStep(_, _) => true
    case ExpireStep(_) => true
    case TakeStep => s.taken.None? && s.core.result.state == SUCCESS
    case FinishStep(_) => s.taken.Some?
    case RetryStep => s.taken.None?
    case ReportStep(_) => s.taken.None?
  }

  function Apply(s: State, t: Step): State
    requires Enabled(s, t)
  {
    match t
    case DeliverStep(r, isRunning) =>
      if isRunning then
        s.(core := SetData(s.core, r), count := s.count + 1,
           delivered := if r.state == SUCCESS then s.delivered[s.count + 1 := r.content] else s.delivered)
      else s
    case ExpireStep(sequence) => s.(core := Expire(s.core, sequence))
    case TakeStep => s.(taken := Some(Taken(s.count, s.core.result.content)))
    case FinishStep(isSubmitted) =>
      s.(core := Finish(s.core, s.taken.value.count % UINT64, isSubmitted, s.isCredUi), taken := None,
         submitted := if isSubmitted then s.submitted + [s.taken.value] else s.submitted)
    case RetryStep => s.(core := Retry(s.core))
    case ReportStep(hasLogonFailed) => s.(core := Report(s.core, hasLogonFailed))
  }

  /** Listeners may come in at any time; one that was stopped leaves no trace, one that runs is heard. */
  lemma ListenersComeIn(s: State, r: UnlockResult, sequence: nat)
    ensures Enabled(s, DeliverStep(r, true)) && Enabled(s, DeliverStep(r, false)) && Enabled(s, ExpireStep(sequence))
    ensures Apply(s, DeliverStep(r, false)) == s
    ensures Apply(s, DeliverStep(r, true)).core.result == r && Apply(s, DeliverStep(r, true)).count == s.count + 1
  {
  }

  /** LogonUI can always end a submission under way, and can begin one exactly with a success. */
  lemma SubmissionsBeginAndEnd(s: State, isSubmitted: bool, hasLogonFailed: bool)
    ensures Enabled(s, FinishStep(isSubmitted)) <==> s.taken.Some?
    ensures s.taken.None? ==> Enabled(s, RetryStep) && Enabled(s, ReportStep(hasLogonFailed))
    ensures s.taken.None? ==> (Enabled(s, TakeStep) <==> Pending(s.core, s.core.sequence))
    ensures Enabled(s, TakeStep) ==>
              Apply(s, TakeStep).taken == Some(Taken(s.count, s.core.result.content)) &&
              Apply(s, TakeStep).core == s.core
    ensures s.taken.Some? ==>
              Apply(s, FinishStep(isSubmitted)).submitted == s.submitted + (if isSubmitted then [s.taken.value] else [])
  {
  }

  /** The success delivered as the k-th result is the one that could be submitted now. */
  predicate Live(s: State, k: nat) {
    s.count == k && s.core.result.state == SUCCESS
  }

  /** It was delivered and is not live any more. */
  predicate Over(s: State, k: nat) {
    k <= s.count && !Live(s, k)
  }

  ghost predicate Invariant(s: State) {
    && s.core.sequence == s.count % UINT64
    && (s.core.result.state == SUCCESS ==> s.count in s.delivered && s.delivered[s.count] == s.core.result.content)
    && (forall k :: k in s.delivered ==> k <= s.count)
    && (s.taken.Some? ==> && s.taken.value.count in s.delivered
                          && s.delivered[s.taken.value.count] == s.taken.value.password)
    && (forall i :: 0 <= i < |s.submitted| ==>
          var k := s.submitted[i];
          k.count in s.delivered && s.delivered[k.count] == k.password && Over(s, k.count) &&
          (s.taken.Some? ==> s.taken.value.count != k.count))
    && (forall i, j :: 0 <= i < j < |s.submitted| ==> s.submitted[i].count != s.submitted[j].count)
  }

  lemma StartInvariant(isCredUi: bool)
    ensures Invariant(Start(isCredUi))
  {
  }

  lemma InvariantKept(s: State, t: Step)
    requires Invariant(s) && Enabled(s, t) && Apply(s, t).count < UINT64
    ensures Invariant(Apply(s, t))
  {
  }

  /** What is over stays over. */
  lemma OverStays(s: State, t: Step, k: nat)
    requires Enabled(s, t) && Over(s, k)
    ensures Over(Apply(s, t), k)
  {
  }

  ghost predicate CanRun(s: State, steps: seq<Step>)
    decreases |steps|
  {
    steps == [] || (Enabled(s, steps[0]) && CanRun(Apply(s, steps[0]), steps[1..]))
  }

  ghost function After(s: State, steps: seq<Step>): State
    requires CanRun(s, steps)
    decreases |steps|
  {
    if steps == [] then s else After(Apply(s, steps[0]), steps[1..])
  }

  lemma {:induction false} CountGrows(s: State, steps: seq<Step>)
    requires CanRun(s, steps)
    ensures s.count <= After(s, steps).count
    decreases |steps|
  {
    if steps != [] {
      CountGrows(Apply(s, steps[0]), steps[1..]);
    }
  }

  lemma {:induction false} RunsKeep(s: State, steps: seq<Step>)
    requires Invariant(s) && CanRun(s, steps) && After(s, steps).count < UINT64
    ensures Invariant(After(s, steps))
    decreases |steps|
  {
    hide Invariant, Apply, Enabled;
    if steps != [] {
      CountGrows(Apply(s, steps[0]), steps[1..]);
      InvariantKept(s, steps[0]);
      RunsKeep(Apply(s, steps[0]), steps[1..]);
    }
  }

  lemma {:induction false} OverForGood(s: State, steps: seq<Step>, k: nat)
    requires CanRun(s, steps) && Over(s, k)
    ensures Over(After(s, steps), k)
    decreases |steps|
  {
    hide Over, Apply, Enabled;
    if steps != [] {
      OverStays(s, steps[0], k);
      OverForGood(Apply(s, steps[0]), steps[1..], k);
    }
  }

  /**
   Any run that delivers fewer than 2^64 results: no result is submitted twice, and what is submitted is
   the password that was delivered under that sequence number.
   */
  lemma SubmittedAtMostOnce(isCredUi: bool, steps: seq<Step>)
    requires CanRun(Start(isCredUi), steps) && After(Start(isCredUi), steps).count < UINT64
    ensures var s := After(Start(isCredUi), steps);
            && (forall i, j :: 0 <= i < j < |s.submitted| ==> s.submitted[i].count != s.submitted[j].count)
            && (forall i :: 0 <= i < |s.submitted| ==>
                  var k := s.submitted[i];
                  k.count in s.delivered && s.delivered[k.count] == k.password && !Pending(s.core, k.count))
  {
    hide Start;
    StartInvariant(isCredUi);
    RunsKeep(Start(isCredUi), steps);
  }

  /** A success that is not pending any more never becomes pending again under its number. */
  lemma NeverPendingAgain(s: State, steps: seq<Step>, k: nat)
    requires Invariant(s) && k <= s.count && !Pending(s.core, k)
    requires CanRun(s, steps) && After(s, steps).count < UINT64
    ensures !Pending(After(s, steps).core, k)
  {
    hide Apply, Enabled;
    CountGrows(s, steps);
    OverForGood(s, steps, k);
    RunsKeep(s, steps);
  }

  // ---- old numbers ----

  lemma SameRemainder(k: nat, count: nat)
    ensures k % UINT64 == count % UINT64 <==> (count - k) % UINT64 == 0
  {
    var q := count / UINT64 - k / UINT64;
    var r := count % UINT64 - k % UINT64;
    assert count - k == UINT64 * q + r;
  }

  /** Expiring the k-th result alters the stored one exactly when that is a success whose number is the same. */
  lemma ExpiryAlters(s: State, k: nat)
    requires Invariant(s) && k <= s.count
    ensures Apply(s, ExpireStep(k % UINT64)) != s <==> s.core.result.state == SUCCESS && (s.count - k) % UINT64 == 0
  {
    SameRemainder(k, s.count);
  }

  /** So with fewer than 2^64 results an old expiry, or an old submission, leaves a newer result alone. */
  lemma OldNumbersAreHarmless(s: State, k: nat, isSubmitted: bool)
    requires Invariant(s) && k < s.count < UINT64
    ensures Apply(s, ExpireStep(k)) == s
    ensures s.taken.Some? && s.taken.value.count == k ==> Apply(s, FinishStep(isSubmitted)).core == s.core
  {
  }

  // ---- when the automatic start is blocked ----

  lemma {:induction false} AfterLast(s: State, steps: seq<Step>)
    requires steps != [] && CanRun(s, steps)
    ensures var n := |steps| - 1;
            CanRun(s, steps[..n]) && Enabled(After(s, steps[..n]), steps[n]) &&
            After(s, steps) == Apply(After(s, steps[..n]), steps[n])
    decreases |steps|
  {
    hide Apply, Enabled;
    var n := |steps| - 1;
    if n > 0 {
      AfterLast(Apply(s, steps[0]), steps[1..]);
      assert steps[1..][..n - 1] == steps[..n][1..];
    } else {
      assert steps[..0] == [] && steps[1..] == [];
    }
  }

  /** A success that is still pending is handed to Windows outside CredUI. */
  predicate Submits(s: State, t: Step) {
    t == FinishStep(true) && s.taken.Some? && Live(s, s.taken.value.count) && !s.isCredUi
  }

  /** A retry, a logon that did not fail, or a pending success that could not be handed over. */
  predicate Frees(s: State, t: Step) {
    || t.RetryStep?
    || t == ReportStep(false)
    || (t == FinishStep(false) && s.taken.Some? && Live(s, s.taken.value.count))
  }

  /** Some step of the run submits, and none after it frees. */
  ghost predicate SubmittedSince(s: State, steps: seq<Step>)
    requires CanRun(s, steps)
  {
    exists i: nat :: i < |steps| && SubmitsAt(s, steps, i) && forall j: nat :: i < j < |steps| ==> !FreesAt(s, steps, j)
  }

  ghost predicate SubmitsAt(s: State, steps: seq<Step>, i: nat) {
    i < |steps| && CanRun(s, steps[..i]) && Submits(After(s, steps[..i]), steps[i])
  }

  ghost predicate FreesAt(s: State, steps: seq<Step>, i: nat) {
    i < |steps| && CanRun(s, steps[..i]) && Frees(After(s, steps[..i]), steps[i])
  }

  lemma SameSteps(s: State, steps: seq<Step>, i: nat)
    requires steps != [] && i < |steps| - 1
    ensures SubmitsAt(s, steps[..|steps| - 1], i) == SubmitsAt(s, steps, i)
    ensures FreesAt(s, steps[..|steps| - 1], i) == FreesAt(s, steps, i)
  {
    assert steps[..|steps| - 1][..i] == steps[..i];
  }

  /** What the last step makes of it. */
  lemma SubmittedLast(s: State, steps: seq<Step>)
    requires steps != [] && CanRun(s, steps) && CanRun(s, steps[..|steps| - 1])
    ensures var n := |steps| - 1;
            SubmittedSince(s, steps) <==>
            SubmitsAt(s, steps, n) || (SubmittedSince(s, steps[..n]) && !FreesAt(s, steps, n))
  {
    hide CanRun, SubmitsAt, FreesAt;
    var n := |steps| - 1;
    var before := steps[..n];
    if SubmittedSince(s, steps) && !SubmitsAt(s, steps, n) {
      var i: nat :| i < |steps| && SubmitsAt(s, steps, i) && forall j: nat :: i < j < |steps| ==> !FreesAt(s, steps, j);
      SameSteps(s, steps, i);
      forall j: nat | i < j < n ensures !FreesAt(s, before, j) {
        SameSteps(s, steps, j);
      }
    }
    if SubmittedSince(s, before) && !FreesAt(s, steps, n) {
      var i: nat :| i < |before| && SubmitsAt(s, before, i)
                 && forall j: nat :: i < j < |before| ==> !FreesAt(s, before, j);
      SameSteps(s, steps, i);
      forall j: nat | i < j < |steps| ensures !FreesAt(s, steps, j) {
        if j < n {
          SameSteps(s, steps, j);
        }
      }
    }
  }

  lemma BlockStep(s: State, t: Step)
    requires Invariant(s) && Enabled(s, t) && s.count < UINT64
    requires s.isCredUi ==> !s.core.autoStartBlocked
    ensures Apply(s, t).core.autoStartBlocked <==> Submits(s, t) || (s.core.autoStartBlocked && !Frees(s, t))
    ensures Apply(s, t).isCredUi == s.isCredUi
  {
  }

  /**
   After any run that delivers fewer than 2^64 results the automatic start is blocked exactly when a
   pending success was submitted outside CredUI and since then there was no retry, no report of a logon
   that did not fail, and no pending success that could not be submitted.
   */
  lemma {:induction false} BlockedExactly(isCredUi: bool, steps: seq<Step>)
    requires CanRun(Start(isCredUi), steps) && After(Start(isCredUi), steps).count < UINT64
    ensures var s := After(Start(isCredUi), steps);
            s.isCredUi == isCredUi && (isCredUi ==> !s.core.autoStartBlocked) &&
            (s.core.autoStartBlocked <==> SubmittedSince(Start(isCredUi), steps))
    decreases |steps|
  {
    hide Apply, Enabled, SubmitsAt, FreesAt, Invariant, SubmittedSince;
    var start := Start(isCredUi);
    if steps == [] {
      NothingSubmitted(start);
    } else {
      var before := steps[..|steps| - 1];
      AfterLast(start, steps);
      LastCount(start, steps);
      BlockedExactly(isCredUi, before);
      StartInvariant(isCredUi);
      RunsKeep(start, before);
      BlockStep(After(start, before), steps[|steps| - 1]);
      SubmittedLast(start, steps);
      AtTheEnd(start, steps);
    }
  }

  lemma NothingSubmitted(s: State)
    ensures !SubmittedSince(s, [])
  {
  }

  lemma LastCount(s: State, steps: seq<Step>)
    requires steps != [] && CanRun(s, steps) && CanRun(s, steps[..|steps| - 1])
    requires Enabled(After(s, steps[..|steps| - 1]), steps[|steps| - 1])
    requires After(s, steps) == Apply(After(s, steps[..|steps| - 1]), steps[|steps| - 1])
    ensures After(s, steps[..|steps| - 1]).count <= After(s, steps).count
  {
    hide CanRun, After, Enabled;
  }

  lemma AtTheEnd(s: State, steps: seq<Step>)
    requires steps != [] && CanRun(s, steps[..|steps| - 1])
    ensures var n := |steps| - 1;
            && SubmitsAt(s, steps, n) == Submits(After(s, steps[..n]), steps[n])
            && FreesAt(s, steps, n) == Frees(After(s, steps[..n]), steps[n])
  {
  }
}
