/**
 The results of unlock connections: how one worker ends and how the results of all are merged into
 one (RunServer and the worker body of GetResult in common/src/handler/UnlockHandler.cpp).
 */
module UnlockResults {
  import opened Options

  datatype UnlockState =
    | UNKNOWN | SUCCESS | CANCELED | TIMEOUT | CONNECT_ERROR | TIME_ERROR | DATA_ERROR | NOT_PAIRED_ERROR
    | APP_ERROR | START_ERROR | PORT_ERROR | PROTOCOL_ERROR | CLOUD_SERVER_UNREACHABLE | CLOUD_PHONE_UNREACHABLE
    | CLOUD_RATE_LIMITED | CLOUD_PAIRING_GONE | CLOUD_DEVICE_STALE | CLOUD_NO_SUBSCRIPTION
    | CLOUD_SUBSCRIPTION_STALE | CLOUD_SUBSCRIPTION_ON_HOLD | CLOUD_SUBSCRIPTION_PAUSED | UNK_ERROR

  /** States that only come from an answer of the phone itself. */
  predicate IsPhoneAnswer(s: UnlockState) {
    s == TIME_ERROR || s == NOT_PAIRED_ERROR || s == APP_ERROR || s == DATA_ERROR || s == PROTOCOL_ERROR
  }

  /** A state together with what else the connection reports: device and password. */
  datatype UnlockResult = UnlockResult(state: UnlockState, content: string)

  /** A worker that finishes: its result, and whether it is the second client of its device. */
  datatype Arrival = Arrival(result: UnlockResult, isOther: bool)

  const NO_RESULT := UnlockResult(UNKNOWN, "")

  // ---- merging ----

  predicate Replaces(stored: UnlockState, a: Arrival) {
    || a.result.state == SUCCESS
    || (IsPhoneAnswer(a.result.state) && stored != SUCCESS)
    || (!a.isOther && stored != SUCCESS && !IsPhoneAnswer(stored))
  }

  function Store(stored: UnlockResult, a: Arrival): UnlockResult {
    if Replaces(stored.state, a) then a.result else stored
  }

  /** The last worker leaves its own result when there is none yet. */
  function StoreLast(stored: UnlockResult, a: Arrival): UnlockResult {
    if stored.state == UNKNOWN then a.result else stored
  }

  function Stored(arrivals: seq<Arrival>): UnlockResult {
    if arrivals == [] then NO_RESULT
    else Store(Stored(arrivals[..|arrivals| - 1]), arrivals[|arrivals| - 1])
  }

  /** The result when all workers have arrived in this order. */
  function Final(arrivals: seq<Arrival>): UnlockResult {
    if arrivals == [] then NO_RESULT else StoreLast(Stored(arrivals), arrivals[|arrivals| - 1])
  }

  // ---- what the merge amounts to ----

  datatype Kind = Success | Answer | Own

  predicate Is(a: Arrival, kind: Kind) {
    match kind
    case Success => a.result.state == SUCCESS
    case Answer => IsPhoneAnswer(a.result.state)
    case Own => !a.isOther
  }

  /** The last arrival of a kind. */
  function Last(arrivals: seq<Arrival>, kind: Kind): Option<UnlockResult> {
    if arrivals == [] then None
    else if Is(arrivals[|arrivals| - 1], kind) then Some(arrivals[|arrivals| - 1].result)
    else Last(arrivals[..|arrivals| - 1], kind)
  }

  lemma {:induction false} LastIsThere(arrivals: seq<Arrival>, kind: Kind)
    ensures Last(arrivals, kind).None? ==> forall k :: 0 <= k < |arrivals| ==> !Is(arrivals[k], kind)
    ensures Last(arrivals, kind).Some? ==>
              exists k :: 0 <= k < |arrivals| && Is(arrivals[k], kind)
                       && Last(arrivals, kind).value == arrivals[k].result
  {
    hide Is;
    if arrivals != [] {
      var k := |arrivals| - 1;
      LastIsThere(arrivals[..k], kind);
      if !Is(arrivals[k], kind) && Last(arrivals, kind).Some? {
        var i :| 0 <= i < k && Is(arrivals[..k][i], kind) && Last(arrivals, kind).value == arrivals[..k][i].result;
        assert arrivals[i] == arrivals[..k][i];
      } else if Last(arrivals, kind).None? {
        forall i | 0 <= i < |arrivals| ensures !Is(arrivals[i], kind) {
          if i < k {
            assert !Is(arrivals[..k][i], kind);
          }
        }
      }
    }
  }

  predicate AllKnown(arrivals: seq<Arrival>) {
    forall k :: 0 <= k < |arrivals| ==> arrivals[k].result.state != UNKNOWN
  }

  /** The states of the last arrivals of each kind. */
  lemma LastStates(arrivals: seq<Arrival>)
    requires AllKnown(arrivals)
    ensures Last(arrivals, Success).Some? ==> Last(arrivals, Success).value.state == SUCCESS
    ensures Last(arrivals, Answer).Some? ==> IsPhoneAnswer(Last(arrivals, Answer).value.state)
    ensures Last(arrivals, Own).Some? ==>
              var s := Last(arrivals, Own).value.state;
              && s != UNKNOWN
              && (Last(arrivals, Success).None? ==> s != SUCCESS)
              && (Last(arrivals, Answer).None? ==> !IsPhoneAnswer(s))
  {
    hide Last, IsPhoneAnswer;
    LastIsThere(arrivals, Success);
    LastIsThere(arrivals, Answer);
    LastIsThere(arrivals, Own);
    if Last(arrivals, Own).Some? {
      var k :| 0 <= k < |arrivals| && Is(arrivals[k], Own) && Last(arrivals, Own).value == arrivals[k].result;
      assert Last(arrivals, Success).None? ==> !Is(arrivals[k], Success);
      assert Last(arrivals, Answer).None? ==> !Is(arrivals[k], Answer);
    }
  }

  /** The last arrival of the first kind that occurs. */
  function Ranked(arrivals: seq<Arrival>): UnlockResult {
    if Last(arrivals, Success).Some? then Last(arrivals, Success).value
    else if Last(arrivals, Answer).Some? then Last(arrivals, Answer).value
    else if Last(arrivals, Own).Some? then Last(arrivals, Own).value
    else NO_RESULT
  }

  /** What is stored before the last worker looks; nothing while only second clients came. */
  lemma {:induction false} StoredIsRanked(arrivals: seq<Arrival>)
    requires AllKnown(arrivals)
    ensures Stored(arrivals) == Ranked(arrivals)
  {
    if arrivals != [] {
      var before := arrivals[..|arrivals| - 1];
      StoredIsRanked(before);
      LastStates(before);
      AnswerIsKnown();
      hide IsPhoneAnswer;
    }
  }

  /**
   The final result is a function of the order of arrival: the last success; else the last answer of a
   phone; else the last result of a first client; else, when only second clients came, the last result.
   */
  function Chosen(arrivals: seq<Arrival>): UnlockResult
    requires arrivals != []
  {
    var r := Ranked(arrivals);
    if r.state == UNKNOWN then arrivals[|arrivals| - 1].result else r
  }

  lemma FinalIsChosen(arrivals: seq<Arrival>)
    requires AllKnown(arrivals) && arrivals != []
    ensures Final(arrivals) == Chosen(arrivals)
    ensures Ranked(arrivals).state == UNKNOWN <==> forall k :: 0 <= k < |arrivals| ==>
              !Is(arrivals[k], Success) && !Is(arrivals[k], Answer) && !Is(arrivals[k], Own)
    ensures Final(arrivals).state != UNKNOWN
    ensures Final(arrivals).state == SUCCESS <==>
              exists k :: 0 <= k < |arrivals| && arrivals[k].result.state == SUCCESS
  {
    hide Stored, Last, IsPhoneAnswer, Is;
    StoredIsRanked(arrivals);
    LastStates(arrivals);
    LastIsThere(arrivals, Success);
    LastIsThere(arrivals, Answer);
    LastIsThere(arrivals, Own);
    AnswerIsKnown();
    SuccessIs(arrivals);
  }

  lemma SuccessIs(arrivals: seq<Arrival>)
    ensures (exists k :: 0 <= k < |arrivals| && arrivals[k].result.state == SUCCESS)
        <==> exists k :: 0 <= k < |arrivals| && Is(arrivals[k], Success)
  {
    if k :| 0 <= k < |arrivals| && arrivals[k].result.state == SUCCESS {
      assert Is(arrivals[k], Success);
    }
  }

  lemma AnswerIsKnown()
    ensures !IsPhoneAnswer(UNKNOWN) && !IsPhoneAnswer(SUCCESS)
  {
  }

  /** A success is only ever replaced by a success. */
  lemma SuccessStays(stored: UnlockResult, a: Arrival)
    requires stored.state == SUCCESS
    ensures Store(stored, a).state == SUCCESS && StoreLast(stored, a) == stored
    ensures Store(stored, a) != stored ==> a.result.state == SUCCESS
  {
  }

  // ---- how one worker ends ----

  /** What the loop of RunServer observes in one round. */
  datatype Tick = Tick(
    successElsewhere: bool, stopped: bool, phoneUnlocking: bool,
    polled: UnlockState, connectionRunning: bool, timedOut: bool, keysPressed: bool)

  /** The state with which a round ends the loop; UNKNOWN when the loop goes on. */
  function TickEnds(t: Tick): UnlockState {
    if t.successElsewhere || t.stopped then CANCELED
    else if t.polled != UNKNOWN && !(t.polled == CONNECT_ERROR && t.connectionRunning) then t.polled
    else if !t.phoneUnlocking && t.timedOut then TIMEOUT
    else if t.keysPressed then CANCELED
    else UNKNOWN
  }

  /** Each way for a round to end the loop, and for it to go on. */
  lemma RoundEnds(t: Tick)
    ensures var stop := t.successElsewhere || t.stopped;
            var retries := t.polled == CONNECT_ERROR && t.connectionRunning;
            && (stop ==> TickEnds(t) == CANCELED)
            && (TickEnds(t) == SUCCESS <==> t.polled == SUCCESS && !stop)
            && (TickEnds(t) == CONNECT_ERROR <==> t.polled == CONNECT_ERROR && !t.connectionRunning && !stop)
            && (TickEnds(t) == UNKNOWN <==>
                  && !stop && (t.polled == UNKNOWN || retries)
                  && !t.keysPressed && (t.timedOut ==> t.phoneUnlocking))
            && (!stop && t.polled != UNKNOWN && !retries ==> TickEnds(t) == t.polled)
            && (!stop && (t.polled == UNKNOWN || retries) ==> TickEnds(t) in {UNKNOWN, TIMEOUT, CANCELED})
            && (!stop && (t.polled == UNKNOWN || retries) ==>
                  (TickEnds(t) == TIMEOUT <==> t.timedOut && !t.phoneUnlocking))
  {
  }

  /** The first round that ends the loop. */
  predicate IsEnd(ticks: seq<Tick>, k: int) {
    && 0 <= k < |ticks| && TickEnds(ticks[k]) != UNKNOWN
    && forall i :: 0 <= i < k ==> TickEnds(ticks[i]) == UNKNOWN
  }

  method RunLoop(ticks: seq<Tick>) returns (state: UnlockState, rounds: nat)
    ensures rounds <= |ticks| && forall k :: 0 <= k < rounds ==> TickEnds(ticks[k]) == UNKNOWN
    ensures state == if rounds < |ticks| then TickEnds(ticks[rounds]) else UNKNOWN
    ensures rounds < |ticks| ==> state != UNKNOWN
  {
    state := UNKNOWN;
    rounds := 0;
    while rounds < |ticks|
      invariant rounds <= |ticks| && state == UNKNOWN
      invariant forall k :: 0 <= k < rounds ==> TickEnds(ticks[k]) == UNKNOWN
    {
      var t := ticks[rounds];
      if t.successElsewhere || t.stopped {
        state := CANCELED;
        break;
      }
      state := t.polled;
      if state == CONNECT_ERROR && t.connectionRunning {
        state := UNKNOWN;
      }
      if state != UNKNOWN {
        break;
      }
      if !t.phoneUnlocking && t.timedOut {
        state := TIMEOUT;
        break;
      }
      if t.keysPressed {
        state := CANCELED;
        break;
      }
      rounds := rounds + 1;
    }
  }

  /**
   A worker's result, unless its loop is still going.  It is what the first ending round says, or what the
   connection says when it is asked again after anything but a success; a success carries the decrypted
   password, and without one it becomes an error.
   */
  method RunServer(started: bool, ticks: seq<Tick>, asksAgain: bool, latest: UnlockState, password: Option<string>)
    returns (r: Option<UnlockResult>, undecryptable: bool)
    ensures r.Some? ==> r.value.state != UNKNOWN
    ensures r.Some? && r.value.state == SUCCESS ==>
              password.Some? && started &&
              ((exists k :: 0 <= k < |ticks| && ticks[k].polled == SUCCESS) || (asksAgain && latest == SUCCESS))
    ensures r.None? <==> started && forall k :: 0 <= k < |ticks| ==> TickEnds(ticks[k]) == UNKNOWN
    ensures !started ==> r == Some(UnlockResult(START_ERROR, ""))
    ensures r.Some? && r.value.state == SUCCESS ==> r.value.content == password.value
    ensures started ==> forall k :: IsEnd(ticks, k) ==>
              var own := TickEnds(ticks[k]);
              var known := if own != SUCCESS && asksAgain && latest != UNKNOWN then latest else own;
              && (undecryptable <==> known == SUCCESS && password.None?)
              && r == Some(if undecryptable then UnlockResult(DATA_ERROR, "")
                           else UnlockResult(known, if password.Some? then password.value else ""))
    ensures undecryptable ==> r.Some? && r.value.state == DATA_ERROR && password.None?
  {
    undecryptable := false;
    if !started {
      return Some(UnlockResult(START_ERROR, "")), false;
    }
    var state, rounds := RunLoop(ticks);
    if rounds == |ticks| {
      return None, false;
    }
    if state != SUCCESS && asksAgain {
      if latest != UNKNOWN {
        state := latest;
      }
    }
    if password.None? && state == SUCCESS {
      return Some(UnlockResult(DATA_ERROR, "")), true;
    }
    r := Some(UnlockResult(state, if password.Some? then password.value else ""));
  }
}
