/**
 The status line of an unlock attempt (both PrintStatus functions of
 common/src/handler/UnlockHandler.cpp): phases compete for it, a last message closes it.
 */
module UnlockStatus {
  import opened Options
  import opened UnlockResults

  datatype UnlockPhase =
    | FINISHED | STARTING | CLIENT_CONNECTING | SERVER_WAITING | CLOUD_REQUESTING | CLOUD_CONNECTING | PHONE_UNLOCKING
  {
    function Level(): nat {
      match this
      case FINISHED => 0
      case STARTING => 1
      case CLIENT_CONNECTING => 2
      case SERVER_WAITING => 3
      case CLOUD_REQUESTING => 4
      case CLOUD_CONNECTING => 5
      case PHONE_UNLOCKING => 6
    }
  }

  /** The text of the final state, or an error that RunServer reports itself. */
  datatype LastText = StateText(state: UnlockState) | ErrorText(text: string)

  datatype Message = PhaseMessage(phase: UnlockPhase) | LastMessage(text: LastText)

  /** The fields of the handler that concern the status, and what has been printed. */
  datatype Board = Board(phase: UnlockPhase, owner: Option<nat>, message: Option<Message>, done: bool,
                         printed: seq<Message>)

  const FRESH := Board(FINISHED, None, None, false, [])

  /** A connection reports its phase: a lower phase than the one shown only counts from the same connection. */
  function ShowPhase(b: Board, owner: nat, phase: UnlockPhase): Board {
    if b.done || (phase.Level() < b.phase.Level() && b.owner != Some(owner)) then b
    else
      var c := b.(phase := phase, owner := Some(owner));
      if phase == FINISHED || c.message == Some(PhaseMessage(phase)) then c
      else c.(message := Some(PhaseMessage(phase)), printed := c.printed + [PhaseMessage(phase)])
  }

  function ShowLast(b: Board, text: LastText): Board {
    if b.done then b
    else b.(done := true, message := Some(LastMessage(text)), printed := b.printed + [LastMessage(text)])
  }

  /** At most one last message, and nothing after it. */
  ghost predicate Closed(b: Board) {
    && (b.done ==> b.printed != [])
    && forall k :: 0 <= k < |b.printed| ==> (b.printed[k].LastMessage? <==> b.done && k == |b.printed| - 1)
  }

  /** No message is printed twice in a row. */
  ghost predicate Changing(b: Board) {
    && b.message == (if b.printed == [] then None else Some(b.printed[|b.printed| - 1]))
    && forall k :: 0 < k < |b.printed| ==> b.printed[k] != b.printed[k - 1]
  }

  lemma ShowPhaseKeeps(b: Board, owner: nat, phase: UnlockPhase)
    requires Closed(b) && Changing(b)
    ensures Closed(ShowPhase(b, owner, phase)) && Changing(ShowPhase(b, owner, phase))
    ensures ShowPhase(b, owner, phase).done == b.done
    ensures b.done ==> ShowPhase(b, owner, phase) == b
  {
  }

  lemma ShowLastKeeps(b: Board, text: LastText)
    requires Closed(b) && Changing(b)
    ensures Closed(ShowLast(b, text)) && Changing(ShowLast(b, text)) && ShowLast(b, text).done
    ensures b.done ==> ShowLast(b, text) == b
  {
  }

  /** Which messages of phases get onto an open board, and what they print. */
  lemma PhaseIsShown(b: Board, owner: nat, phase: UnlockPhase)
    requires !b.done && Changing(b)
    ensures var c := ShowPhase(b, owner, phase);
            if phase.Level() >= b.phase.Level() || b.owner == Some(owner) then
              && c.phase == phase && c.owner == Some(owner)
              && (phase == FINISHED ==> c.printed == b.printed)
              && (phase != FINISHED ==>
                    c.printed != [] && c.printed[|c.printed| - 1] == PhaseMessage(phase)
                    && (c.printed == b.printed || c.printed == b.printed + [PhaseMessage(phase)]))
            else c == b
  {
  }

  /** The phase that counts most, and the one before it. */
  lemma PhasesInOrder()
    ensures forall p: UnlockPhase :: FINISHED.Level() <= p.Level() <= PHONE_UNLOCKING.Level()
    ensures FINISHED.Level() < STARTING.Level() < CLIENT_CONNECTING.Level() < SERVER_WAITING.Level()
    ensures SERVER_WAITING.Level() < CLOUD_REQUESTING.Level() < CLOUD_CONNECTING.Level() < PHONE_UNLOCKING.Level()
  {
  }

  /** A last message is the last thing an open board shows. */
  lemma LastIsShown(b: Board, text: LastText)
    requires !b.done
    ensures ShowLast(b, text).printed == b.printed + [LastMessage(text)]
    ensures ShowLast(b, text).message == Some(LastMessage(text))
  {
  }

  class StatusPrinter {
    var statusPhase: UnlockPhase
    var statusOwner: Option<nat>
    var statusMessage: Option<Message>
    var statusDone: bool
    var printed: seq<Message>

    constructor ()
      ensures Shown() == FRESH
    {
      statusPhase, statusOwner, statusMessage, statusDone, printed := FINISHED, None, None, false, [];
    }

    function Shown(): Board
      reads this
    {
      Board(statusPhase, statusOwner, statusMessage, statusDone, printed)
    }

    method PrintPhase(owner: nat, phase: UnlockPhase)
      modifies this
      ensures Shown() == ShowPhase(old(Shown()), owner, phase)
    {
      if statusDone {
        return;
      }
      if phase.Level() < statusPhase.Level() && Some(owner) != statusOwner {
        return;
      }
      statusPhase := phase;
      statusOwner := Some(owner);
      if phase == FINISHED || statusMessage == Some(PhaseMessage(phase)) {
        return;
      }
      statusMessage := Some(PhaseMessage(phase));
      printed := printed + [PhaseMessage(phase)];
    }

    method PrintLast(message: LastText)
      modifies this
      ensures Shown() == ShowLast(old(Shown()), message)
    {
      if statusDone {
        return;
      }
      statusDone := true;
      statusMessage := Some(LastMessage(message));
      printed := printed + [LastMessage(message)];
    }
  }
}
