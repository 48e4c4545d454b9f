/**
 Concurrent connections to one unlock object, step by step under an arbitrary scheduler
 (PerformAuthFlow and OnPacketReceived of common/src/connection/unlock/BaseUnlockConnection.cpp).  A
 step is one locked section, one access to the unlock state, or one packet read or written.
 */
module UnlockConnections {
  import opened Options
  import opened Bytes
  import opened Hex
  import CryptEnvelope
  import Packets
  import opened UnlockResults
  import opened UnlockProtocol

  datatype ConnectionState = NONE | HAS_DEVICE_ID | HAS_UNLOCK_REQUEST | HAS_UNLOCK_RESPONSE

  datatype Info = Info(state: ConnectionState, device: Device)

  const NO_DEVICE := Device([], "")

  /** Where the thread of a connection is. */
  datatype Place =
    | Fresh
    | Sending(to: Device)                     // registered with its device, about to write the request
    | Sent                                    // has written it, about to note that
    | Reading
    | Got(packet: Packets.Packet)             // about to look up its own entry
    | Handling(packet: Packets.Packet, info: Info)
    | Identified(to: Device)                  // found the device the peer named, about to write the request
    | IdSent(to: Device)                      // has written it, about to note that
    | Verified(device: Device, raw: seq<Byte>, now: CryptEnvelope.Int64)  // about to commit the response
    | Leaving(error: Packets.PacketError)     // about to remove its entry
    | Left(error: Packets.PacketError)        // about to look at the unlock state
    | Failing(error: Packets.PacketError)     // saw no result, about to store one
    | Closed

  /** needsId: the peer has to name its device first, as at the server. */
  datatype Thread = Thread(needsId: bool, place: Place)

  datatype Request = Request(connection: nat, device: Device)
  datatype Commit = Commit(connection: nat, device: Device, raw: seq<Byte>, now: CryptEnvelope.Int64)

  datatype State = State(
    unlockState: UnlockState,
    pairedDevice: Device,
    response: Option<ResponseData>,
    connections: map<nat, Info>,
    allowed: seq<Device>,
    threads: seq<Thread>,
    requests: set<Request>,   // written so far
    commits: seq<Commit>,     // made so far
    offered: set<Device>)     // devices that were ever allowed

  datatype Step =
    | Register(c: nat)
    | WriteRequest(c: nat, error: Packets.PacketError)
    | NoteRequest(c: nat)
    | Read(c: nat, packet: Packets.Packet)
    | Look(c: nat)
    | Handle(c: nat, now: CryptEnvelope.Int64)
    | CommitResponse(c: nat)
    | Erase(c: nat)
    | Inspect(c: nat)
    | Fail(c: nat)
    | SetAllowed(devices: seq<Device>)

  function Start(paired: Device, allowed: seq<Device>, needsId: seq<bool>): State {
    State(UNKNOWN, paired, None, map[], allowed,
          seq(|needsId|, c requires 0 <= c < |needsId| => Thread(needsId[c], Fresh)),
          {}, [], set d | d in allowed)
  }

  predicate Enabled(s: State, t: Step) {
    t.SetAllowed? || (t.c < |s.threads| &&
    var p := s.threads[t.c].place;
    match t
    case Register(_) => p.Fresh?
    case WriteRequest(_, _) => p.Sending? || p.Identified?
    case NoteRequest(_) => (p.Sent? || p.IdSent?) && t.c in s.connections
    case Read(_, _) => p.Reading?
    case Look(_) => p.Got? && t.c in s.connections
    case Handle(_, _) => p.Handling?
    case CommitResponse(_) => p.Verified?
    case Erase(_) => p.Leaving?
    case Inspect(_) => p.Left?
    case Fail(_) => p.Failing?)
  }

  function Move(s: State, c: nat, p: Place): State
    requires c < |s.threads|
  {
    s.(threads := s.threads[c := s.threads[c].(place := p)])
  }

  /** An error nobody vouched for: a server closes the connection, a client takes it as its result. */
  function Unverified(s: State, c: nat, e: UnlockState): State
    requires c < |s.threads|
  {
    if s.threads[c].needsId then Move(s, c, Leaving(Packets.NONE))
    else Move(s, c, Reading).(unlockState := e)
  }

  function HandlePacket(setup: Setup, s: State, c: nat, now: CryptEnvelope.Int64): State
    requires c < |s.threads| && s.threads[c].place.Handling?
  {
    var packet, info := s.threads[c].place.packet, s.threads[c].place.info;
    if packet.id == Packets.PACKET_ID_DEVICE_ID && info.state == NONE then
      var d := Allowed(s.allowed, packet.data);
      if d.None? then Unverified(s, c, DATA_ERROR) else Move(s, c, Identified(d.value))
    else if packet.id == Packets.PACKET_ID_UNLOCK_RESPONSE && info.state == HAS_UNLOCK_REQUEST then
      var v := Judge(setup, info.device, packet.data, now);
      if v.Valid? then Move(s, c, Verified(info.device, packet.data, now))
      else if v.Answered? then Move(s, c, Reading).(unlockState := v.state)
      else Unverified(s, c, v.state)
    else Move(s, c, Reading)
  }

  function Written(s: State, c: nat, error: Packets.PacketError): State
    requires c < |s.threads| && (s.threads[c].place.Sending? || s.threads[c].place.Identified?)
  {
    var p := s.threads[c].place;
    if error == Packets.NONE then
      Move(s, c, if p.Sending? then Sent else IdSent(p.to)).(requests := s.requests + {Request(c, p.to)})
    else if p.Sending? then Move(s, c, Leaving(Packets.NONE)).(unlockState := MapPacketError(error, UNK_ERROR))
    else Unverified(s, c, MapPacketError(error, UNK_ERROR))
  }

  function Apply(setup: Setup, s: State, t: Step): State
    requires Enabled(s, t)
  {
    match t
    case Register(c) =>
      var needsId := s.threads[c].needsId;
      var info := if needsId then Info(NONE, NO_DEVICE) else Info(HAS_DEVICE_ID, s.pairedDevice);
      Move(s, c, if needsId then Reading else Sending(info.device)).(connections := s.connections[c := info])
    case WriteRequest(c, error) => Written(s, c, error)
    case NoteRequest(c) =>
      var p := s.threads[c].place;
      var device := if p.IdSent? then p.to else s.connections[c].device;
      Move(s, c, Reading).(connections := s.connections[c := Info(HAS_UNLOCK_REQUEST, device)])
    case Read(c, packet) =>
      Move(s, c, if packet.error == Packets.NONE then Got(packet) else Leaving(packet.error))
    case Look(c) => Move(s, c, Handling(s.threads[c].place.packet, s.connections[c]))
    case Handle(c, now) => HandlePacket(setup, s, c, now)
    case CommitResponse(c) =>
      var p := s.threads[c].place;
      if s.unlockState != UNKNOWN then Move(s, c, Reading)
      else
        var v := Judge(setup, p.device, p.raw, p.now);
        Move(s, c, Reading).(
          pairedDevice := p.device,
          response := if v.Valid? then Some(v.data) else None,
          unlockState := SUCCESS,
          connections := if c !in s.connections then s.connections
                         else s.connections[c := s.connections[c].(state := HAS_UNLOCK_RESPONSE)],
          commits := s.commits + [Commit(c, p.device, p.raw, p.now)])
    case Erase(c) => Move(s, c, Left(s.threads[c].place.error)).(connections := s.connections - {c})
    case Inspect(c) =>
      var e := s.threads[c].place.error;
      Move(s, c, if e == Packets.NONE || s.unlockState != UNKNOWN || s.threads[c].needsId then Closed else Failing(e))
    case Fail(c) => Move(s, c, Closed).(unlockState := MapPacketError(s.threads[c].place.error, DATA_ERROR))
    case SetAllowed(devices) => s.(allowed := devices, offered := s.offered + set d | d in devices)
  }

  // ---- the invariant ----

  predicate HasEntry(p: Place) {
    !(p.Fresh? || p.Left? || p.Failing? || p.Closed?)
  }

  /** What holds of one connection, given its entry. */
  ghost predicate Consistent(setup: Setup, s: State, c: nat)
    requires c < |s.threads|
  {
    var p, needsId := s.threads[c].place, s.threads[c].needsId;
    && (HasEntry(p) <==> c in s.connections)
    && (HasEntry(p) ==>
          var info := s.connections[c];
          && (info.state == HAS_UNLOCK_REQUEST || info.state == HAS_UNLOCK_RESPONSE ==>
                Request(c, info.device) in s.requests && (needsId ==> info.device in s.offered))
          && (info.state == NONE ==> needsId)
          && (p.Sending? ==> info == Info(HAS_DEVICE_ID, p.to) && !needsId)
          && (p.Sent? ==> info.state == HAS_DEVICE_ID && Request(c, info.device) in s.requests && !needsId)
          && (p.Identified? || p.IdSent? ==> info.state == NONE && p.to in s.offered)
          && (p.IdSent? ==> Request(c, p.to) in s.requests)
          && (p.Handling? ==> p.info == info)
          && (p.Verified? ==>
                info == Info(HAS_UNLOCK_REQUEST, p.device) && Judge(setup, p.device, p.raw, p.now).Valid?))
  }

  ghost predicate Connections(setup: Setup, s: State) {
    && (forall d :: d in s.allowed ==> d in s.offered)
    && (forall c :: c in s.connections ==> c < |s.threads|)
    && forall c :: 0 <= c < |s.threads| ==> Consistent(setup, s, c)
  }

  /** At most one response was committed; it is authentic and was asked for on the same connection. */
  ghost predicate Committed(setup: Setup, s: State) {
    && |s.commits| <= 1
    && (s.unlockState == UNKNOWN ==> s.commits == [])
    && (s.commits == [] ==> s.response == None)
    && (s.commits != [] ==>
          var k := s.commits[0];
          var v := Judge(setup, k.device, k.raw, k.now);
          && v.Valid? && s.response == Some(v.data) && s.pairedDevice == k.device
          && Request(k.connection, k.device) in s.requests
          && k.connection < |s.threads|
          && (s.threads[k.connection].needsId ==> k.device in s.offered))
    && (forall c :: c in s.connections && s.connections[c].state == HAS_UNLOCK_RESPONSE ==>
          s.commits != [] && s.commits[0].connection == c)
  }

  ghost predicate Invariant(setup: Setup, s: State) {
    Connections(setup, s) && Committed(setup, s)
  }

  lemma StartInvariant(setup: Setup, paired: Device, allowed: seq<Device>, needsId: seq<bool>)
    ensures Invariant(setup, Start(paired, allowed, needsId)) && Start(paired, allowed, needsId).unlockState == UNKNOWN
  {
  }

  /** Connection c moved on; of the rest just the unlock state and the requests written may have changed. */
  predicate Minor(s: State, s': State, c: nat)
    requires c < |s.threads|
  {
    && |s'.threads| == |s.threads|
    && (forall d :: 0 <= d < |s.threads| && d != c ==> s'.threads[d] == s.threads[d])
    && s'.threads[c].needsId == s.threads[c].needsId
    && s.requests <= s'.requests
    && s'.connections == s.connections && s'.allowed == s.allowed && s'.offered == s.offered
    && s'.commits == s.commits && s'.response == s.response && s'.pairedDevice == s.pairedDevice
    && (s.unlockState != UNKNOWN ==> s'.unlockState != UNKNOWN)
  }

  lemma HandlingIsMinor(setup: Setup, s: State, c: nat, now: CryptEnvelope.Int64)
    requires c < |s.threads| && s.threads[c].place.Handling?
    ensures Minor(s, HandlePacket(setup, s, c, now), c)
  {
    hide Judge, Allowed, AnswerState;
  }

  lemma WritingIsMinor(s: State, c: nat, error: Packets.PacketError)
    requires c < |s.threads| && (s.threads[c].place.Sending? || s.threads[c].place.Identified?)
    ensures Minor(s, Written(s, c, error), c)
  {
    hide MapPacketError;
  }

  /** A step of one connection leaves the others consistent. */
  lemma OthersConsistent(setup: Setup, s: State, t: Step, c: nat)
    requires Connections(setup, s) && Enabled(s, t) && c < |s.threads| && (t.SetAllowed? || t.c != c)
    ensures var s' := Apply(setup, s, t);
            |s'.threads| == |s.threads| && Consistent(setup, s', c)
  {
    hide Judge, Allowed, MapPacketError, AnswerState, HandlePacket, Written;
    assert Consistent(setup, s, c);
    if t.Handle? {
      HandlingIsMinor(setup, s, t.c, t.now);
    } else if t.WriteRequest? {
      WritingIsMinor(s, t.c, t.error);
    }
  }

  lemma HandleConsistent(setup: Setup, s: State, c: nat, now: CryptEnvelope.Int64)
    requires Connections(setup, s) && Enabled(s, Handle(c, now))
    ensures Consistent(setup, Apply(setup, s, Handle(c, now)), c)
  {
    hide Judge, Allowed, MapPacketError, AnswerState;
    assert Consistent(setup, s, c);
  }

  lemma OwnConsistent(setup: Setup, s: State, t: Step)
    requires Connections(setup, s) && Enabled(s, t) && !t.SetAllowed?
    ensures Consistent(setup, Apply(setup, s, t), t.c)
  {
    hide Judge, Allowed, MapPacketError, AnswerState, HandlePacket;
    if t.Handle? {
      HandleConsistent(setup, s, t.c, t.now);
    } else {
      assert Consistent(setup, s, t.c);
    }
  }

  lemma ConnectionsKept(setup: Setup, s: State, t: Step)
    requires Connections(setup, s) && Enabled(s, t)
    ensures Connections(setup, Apply(setup, s, t))
  {
    hide Judge, Allowed, MapPacketError, AnswerState;
    var s' := Apply(setup, s, t);
    forall c | 0 <= c < |s'.threads| ensures Consistent(setup, s', c) {
      if t.SetAllowed? || t.c != c {
        OthersConsistent(setup, s, t, c);
      } else {
        OwnConsistent(setup, s, t);
      }
    }
    hide Consistent;
  }

  /** Looking at a packet and writing a request leave entries, commits and responses alone. */
  lemma LittleChanges(setup: Setup, s: State, t: Step)
    requires Enabled(s, t) && (t.Handle? || t.WriteRequest?)
    ensures var s' := Apply(setup, s, t);
            && s.requests <= s'.requests && s'.offered == s.offered
            && |s'.threads| == |s.threads|
            && (forall c :: 0 <= c < |s.threads| ==> s'.threads[c].needsId == s.threads[c].needsId)
            && (s.unlockState != UNKNOWN ==> s'.unlockState != UNKNOWN)
            && s'.commits == s.commits && s'.response == s.response && s'.pairedDevice == s.pairedDevice
            && s'.connections == s.connections
  {
    hide HandlePacket, Written;
    if t.Handle? {
      HandlingIsMinor(setup, s, t.c, t.now);
    } else {
      WritingIsMinor(s, t.c, t.error);
    }
  }

  /** What only a commit changes, and what only ever grows. */
  lemma OnlyCommitsCommit(setup: Setup, s: State, t: Step)
    requires Enabled(s, t)
    ensures var s' := Apply(setup, s, t);
            && s.requests <= s'.requests && s.offered <= s'.offered
            && |s'.threads| == |s.threads|
            && (forall c :: 0 <= c < |s.threads| ==> s'.threads[c].needsId == s.threads[c].needsId)
            && (s.unlockState != UNKNOWN ==> s'.unlockState != UNKNOWN)
            && (!t.CommitResponse? ==>
                  && s'.commits == s.commits && s'.response == s.response && s'.pairedDevice == s.pairedDevice
                  && forall c :: c in s'.connections && s'.connections[c].state == HAS_UNLOCK_RESPONSE ==>
                       c in s.connections && s.connections[c].state == HAS_UNLOCK_RESPONSE)
  {
    hide Judge, Allowed, MapPacketError, HandlePacket, Written;
    if t.Handle? || t.WriteRequest? {
      LittleChanges(setup, s, t);
    }
  }

  lemma CommitKeepsCommitted(setup: Setup, s: State, c: nat)
    requires Invariant(setup, s) && Enabled(s, CommitResponse(c))
    ensures Committed(setup, Apply(setup, s, CommitResponse(c)))
  {
    hide Judge;
    assert Consistent(setup, s, c);
  }

  lemma CommittedKept(setup: Setup, s: State, t: Step)
    requires Invariant(setup, s) && Enabled(s, t)
    ensures Committed(setup, Apply(setup, s, t))
  {
    hide Judge, Apply, Enabled, Connections;
    OnlyCommitsCommit(setup, s, t);
    if t.CommitResponse? {
      CommitKeepsCommitted(setup, s, t.c);
    }
  }

  // ---- a client that ends leaves a result ----

  /** A client connection is over, or on its way to the end without an error, only when there is a result. */
  ghost predicate Reported(s: State, c: nat)
    requires c < |s.threads|
  {
    var p := s.threads[c].place;
    !s.threads[c].needsId ==>
      && (p.Closed? ==> s.unlockState != UNKNOWN)
      && (p.Leaving? && p.error == Packets.NONE ==> s.unlockState != UNKNOWN)
      && (p.Left? && p.error == Packets.NONE ==> s.unlockState != UNKNOWN)
  }

  ghost predicate AllReported(s: State) {
    forall c :: 0 <= c < |s.threads| ==> Reported(s, c)
  }

  lemma HandlingReports(setup: Setup, s: State, c: nat, now: CryptEnvelope.Int64)
    requires c < |s.threads| && s.threads[c].place.Handling?
    ensures |HandlePacket(setup, s, c, now).threads| == |s.threads| && Reported(HandlePacket(setup, s, c, now), c)
  {
    hide Judge, Allowed, AnswerState;
  }

  lemma WritingReports(s: State, c: nat, error: Packets.PacketError)
    requires c < |s.threads| && (s.threads[c].place.Sending? || s.threads[c].place.Identified?)
    ensures |Written(s, c, error).threads| == |s.threads| && Reported(Written(s, c, error), c)
  {
  }

  lemma OwnReports(setup: Setup, s: State, t: Step)
    requires Enabled(s, t) && !t.SetAllowed? && AllReported(s)
    ensures |Apply(setup, s, t).threads| == |s.threads| && Reported(Apply(setup, s, t), t.c)
  {
    hide Judge, Allowed, AnswerState, HandlePacket, Written, MapPacketError;
    assert Reported(s, t.c);
    if t.Handle? {
      HandlingReports(setup, s, t.c, t.now);
    } else if t.WriteRequest? {
      WritingReports(s, t.c, t.error);
    }
  }

  lemma OthersStay(setup: Setup, s: State, t: Step, c: nat)
    requires Enabled(s, t) && c < |s.threads| && (t.SetAllowed? || t.c != c)
    ensures |Apply(setup, s, t).threads| == |s.threads| && Apply(setup, s, t).threads[c] == s.threads[c]
  {
    hide Judge, Allowed, AnswerState, HandlePacket, Written, MapPacketError;
    if t.Handle? {
      HandlingIsMinor(setup, s, t.c, t.now);
    } else if t.WriteRequest? {
      WritingIsMinor(s, t.c, t.error);
    }
  }

  lemma ReportedKept(setup: Setup, s: State, t: Step)
    requires Enabled(s, t) && AllReported(s)
    ensures AllReported(Apply(setup, s, t))
  {
    hide Apply, Enabled;
    OnlyCommitsCommit(setup, s, t);
    forall c | 0 <= c < |s.threads| ensures Reported(Apply(setup, s, t), c) {
      if t.SetAllowed? || t.c != c {
        OthersStay(setup, s, t, c);
        assert Reported(s, c);
      } else {
        OwnReports(setup, s, t);
      }
    }
  }

  lemma {:induction false} RunsReport(setup: Setup, s: State, steps: seq<Step>)
    requires CanRun(setup, s, steps) && AllReported(s)
    ensures AllReported(After(setup, s, steps))
    decreases |steps|
  {
    hide Apply, Enabled, AllReported;
    if steps != [] {
      ReportedKept(setup, s, steps[0]);
      RunsReport(setup, Apply(setup, s, steps[0]), steps[1..]);
    }
  }

  /** In every run a client connection that is over has left a result for PollResult, lost or not. */
  lemma ClosedClientsReport(setup: Setup, paired: Device, allowed: seq<Device>, needsId: seq<bool>,
                            steps: seq<Step>, c: nat)
    requires CanRun(setup, Start(paired, allowed, needsId), steps) && c < |needsId|
    ensures var s := After(setup, Start(paired, allowed, needsId), steps);
            |s.threads| > c && (s.threads[c].place.Closed? && !s.threads[c].needsId ==> s.unlockState != UNKNOWN)
  {
    hide Apply, Enabled, CanRun, After;
    var start := Start(paired, allowed, needsId);
    RunsReport(setup, start, steps);
    ThreadsStay(setup, start, steps);
    assert Reported(After(setup, start, steps), c);
  }

  lemma {:induction false} ThreadsStay(setup: Setup, s: State, steps: seq<Step>)
    requires CanRun(setup, s, steps)
    ensures |After(setup, s, steps).threads| == |s.threads|
    ensures forall c :: 0 <= c < |s.threads| ==>
              After(setup, s, steps).threads[c].needsId == s.threads[c].needsId
    decreases |steps|
  {
    hide Apply, Enabled;
    if steps != [] {
      OnlyCommitsCommit(setup, s, steps[0]);
      ThreadsStay(setup, Apply(setup, s, steps[0]), steps[1..]);
    }
  }

  /**
   A client whose stream ends with an error before there is any result stores what the error says; a
   server connection that ends stores nothing.
   */
  lemma LostConnection(setup: Setup, s: State, c: nat)
    requires Enabled(s, Inspect(c)) && s.unlockState == UNKNOWN && s.threads[c].place.error != Packets.NONE
    ensures s.threads[c].needsId ==> Apply(setup, s, Inspect(c)) == Move(s, c, Closed)
    ensures !s.threads[c].needsId ==>
              && CanRun(setup, s, [Inspect(c), Fail(c)])
              && After(setup, s, [Inspect(c), Fail(c)])
                 == Move(s, c, Closed).(unlockState :=
                      match s.threads[c].place.error
                      case CLOSED_CONNECTION => CONNECT_ERROR
                      case TIMEOUT => UnlockState.TIMEOUT
                      case UNSUPPORTED_VERSION => PROTOCOL_ERROR
                      case PEER_UNAVAILABLE => CLOUD_PHONE_UNREACHABLE
                      case _ => DATA_ERROR)
  {
    hide CanRun, After;
    if !s.threads[c].needsId {
      TwoSteps(setup, s, Inspect(c), Fail(c));
      var failing := s.threads[c].(place := Failing(s.threads[c].place.error));
      var closed := s.threads[c].(place := Closed);
      assert s.threads[c := failing][c := closed] == s.threads[c := closed];
    }
  }

  /** A device id that no allowed device has: a server lets go of the connection, a client has bad data. */
  lemma UnknownDevice(setup: Setup, s: State, c: nat, now: CryptEnvelope.Int64)
    requires Enabled(s, Handle(c, now)) && s.threads[c].place.packet.id == Packets.PACKET_ID_DEVICE_ID
    requires s.threads[c].place.info.state == NONE
    requires forall d :: d in s.allowed ==> d.id != s.threads[c].place.packet.data
    ensures Apply(setup, s, Handle(c, now)) ==
            if s.threads[c].needsId then Move(s, c, Leaving(Packets.NONE))
            else Move(s, c, Reading).(unlockState := DATA_ERROR)
  {
    assert Allowed(s.allowed, s.threads[c].place.packet.data).None?;
    hide Allowed, Judge;
  }

  /** A request that cannot be written: a client takes what the error says, a server lets go of the connection. */
  lemma FailedWrite(setup: Setup, s: State, c: nat, error: Packets.PacketError)
    requires Enabled(s, WriteRequest(c, error)) && error != Packets.NONE
    ensures var s' := Apply(setup, s, WriteRequest(c, error));
            s'.requests == s.requests && s'.unlockState ==
            if s.threads[c].needsId && s.threads[c].place.Identified? then s.unlockState
            else match error
              case CLOSED_CONNECTION => CONNECT_ERROR
              case TIMEOUT => UnlockState.TIMEOUT
              case UNSUPPORTED_VERSION => PROTOCOL_ERROR
              case PEER_UNAVAILABLE => CLOUD_PHONE_UNREACHABLE
              case _ => UNK_ERROR
  {
  }

  // ---- one connection over time ----

  /** Once a connection's device is known it stays, and its state only goes up. */
  lemma DeviceIsFixed(setup: Setup, s: State, t: Step, c: nat)
    requires Invariant(setup, s) && Enabled(s, t)
    requires c in s.connections && c in Apply(setup, s, t).connections && s.connections[c].state != NONE
    ensures var i, j := s.connections[c], Apply(setup, s, t).connections[c];
            j.device == i.device && (j == i || (i.state == HAS_DEVICE_ID && j.state == HAS_UNLOCK_REQUEST)
              || (i.state == HAS_UNLOCK_REQUEST && j.state == HAS_UNLOCK_RESPONSE))
  {
    hide Judge, HandlePacket, Written, MapPacketError;
    assert Consistent(setup, s, c);
    if t.Handle? || t.WriteRequest? {
      LittleChanges(setup, s, t);
    }
  }

  // ---- runs ----

  ghost predicate CanRun(setup: Setup, s: State, steps: seq<Step>)
    decreases |steps|
  {
    steps == [] || (Enabled(s, steps[0]) && CanRun(setup, Apply(setup, s, steps[0]), steps[1..]))
  }

  ghost function After(setup: Setup, s: State, steps: seq<Step>): State
    requires CanRun(setup, s, steps)
    decreases |steps|
  {
    if steps == [] then s else After(setup, Apply(setup, s, steps[0]), steps[1..])
  }

  lemma {:induction false} RunsKeep(setup: Setup, s: State, steps: seq<Step>)
    requires Invariant(setup, s) && CanRun(setup, s, steps)
    ensures Invariant(setup, After(setup, s, steps))
    ensures s.unlockState != UNKNOWN ==> After(setup, s, steps).unlockState != UNKNOWN
    decreases |steps|
  {
    hide Apply, Enabled, Connections, Committed;
    if steps != [] {
      ConnectionsKept(setup, s, steps[0]);
      CommittedKept(setup, s, steps[0]);
      OnlyCommitsCommit(setup, s, steps[0]);
      RunsKeep(setup, Apply(setup, s, steps[0]), steps[1..]);
    }
  }

  /**
   Any run of any connections: at most one response is ever committed.  It comes with the token of this
   unlock, was sealed under the key of the device that is then the paired device, and the request was
   written to that device on the same connection; at a server the device is one that was allowed.
   */
  lemma CommittedOnce(setup: Setup, paired: Device, allowed: seq<Device>, needsId: seq<bool>, steps: seq<Step>)
    requires CanRun(setup, Start(paired, allowed, needsId), steps)
    ensures var s := After(setup, Start(paired, allowed, needsId), steps);
            && |s.commits| <= 1
            && (s.response.Some? <==> s.commits != [])
            && (s.unlockState == SUCCESS ==> s.commits != [])
            && (s.commits != [] ==>
                  var k := s.commits[0];
                  && Judge(setup, k.device, k.raw, k.now) == Valid(s.response.value)
                  && s.response.value.unlockToken == setup.unlockToken
                  && s.pairedDevice == k.device
                  && Request(k.connection, k.device) in s.requests
                  && k.connection < |s.threads|
                  && (s.threads[k.connection].needsId ==> k.device in s.offered)
                  && forall c :: c in s.connections && s.connections[c].state == HAS_UNLOCK_RESPONSE ==>
                       c == k.connection)
  {
    hide Start, Connections;
    StartInvariant(setup, paired, allowed, needsId);
    RunsKeep(setup, Start(paired, allowed, needsId), steps);
    SuccessMeansCommitted(setup, Start(paired, allowed, needsId), steps);
  }

  lemma {:induction false} SuccessMeansCommitted(setup: Setup, s: State, steps: seq<Step>)
    requires CanRun(setup, s, steps) && (s.unlockState == SUCCESS ==> s.commits != [])
    ensures After(setup, s, steps).unlockState == SUCCESS ==> After(setup, s, steps).commits != []
    decreases |steps|
  {
    hide Apply, Enabled;
    if steps != [] {
      SuccessNeedsCommit(setup, s, steps[0]);
      SuccessMeansCommitted(setup, Apply(setup, s, steps[0]), steps[1..]);
    }
  }

  lemma SuccessNeedsCommit(setup: Setup, s: State, t: Step)
    requires Enabled(s, t)
    ensures |s.commits| <= |Apply(setup, s, t).commits|
    ensures Apply(setup, s, t).unlockState == SUCCESS && s.unlockState != SUCCESS ==> Apply(setup, s, t).commits != []
  {
    hide Judge, Allowed, MapPacketError, AnswerState;
  }

  // ---- whether a success stays ----

  /** The steps that store an error without looking at what is stored. */
  predicate StoresError(setup: Setup, s: State, t: Step)
    requires Enabled(s, t)
  {
    match t
    case Fail(_) => true
    case WriteRequest(c, error) => error != Packets.NONE && (s.threads[c].place.Sending? || !s.threads[c].needsId)
    case Handle(c, now) =>
      var packet, info := s.threads[c].place.packet, s.threads[c].place.info;
      if packet.id == Packets.PACKET_ID_DEVICE_ID && info.state == NONE then
        !s.threads[c].needsId && Allowed(s.allowed, packet.data).None?
      else if packet.id == Packets.PACKET_ID_UNLOCK_RESPONSE && info.state == HAS_UNLOCK_REQUEST then
        var v := Judge(setup, info.device, packet.data, now);
        v.Answered? || (v.Unverified? && !s.threads[c].needsId)
      else false
    case _ => false
  }

  /** A stored success is lost exactly by such a step. */
  lemma SuccessStaysUnless(setup: Setup, s: State, t: Step)
    requires Enabled(s, t) && s.unlockState == SUCCESS
    ensures Apply(setup, s, t).unlockState == SUCCESS <==> !StoresError(setup, s, t)
  {
    hide Judge, Allowed, MapPacketError, AnswerState;
  }

  /** A success that is lost does not come back: only a missing result can be replaced by one. */
  lemma LostStaysLost(setup: Setup, s: State, t: Step)
    requires Enabled(s, t) && s.unlockState != UNKNOWN && s.unlockState != SUCCESS
    ensures Apply(setup, s, t).unlockState != UNKNOWN && Apply(setup, s, t).unlockState != SUCCESS
  {
    hide Judge, Allowed, MapPacketError, AnswerState;
  }

  lemma {:induction false} LostForGood(setup: Setup, s: State, steps: seq<Step>)
    requires CanRun(setup, s, steps) && s.unlockState != UNKNOWN && s.unlockState != SUCCESS
    ensures After(setup, s, steps).unlockState != SUCCESS
    decreases |steps|
  {
    hide Apply, Enabled;
    if steps != [] {
      LostStaysLost(setup, s, steps[0]);
      LostForGood(setup, Apply(setup, s, steps[0]), steps[1..]);
    }
  }

  /** Some step of the run stores an error without looking. */
  ghost predicate RunStoresError(setup: Setup, s: State, steps: seq<Step>)
    requires CanRun(setup, s, steps)
    decreases |steps|
  {
    steps != [] &&
    (StoresError(setup, s, steps[0]) || RunStoresError(setup, Apply(setup, s, steps[0]), steps[1..]))
  }

  /** A stored success is there at the end of a run exactly when no step of the run stores an error. */
  lemma {:induction false} SuccessIsFinalUnless(setup: Setup, s: State, steps: seq<Step>)
    requires CanRun(setup, s, steps) && s.unlockState == SUCCESS
    ensures After(setup, s, steps).unlockState == SUCCESS <==> !RunStoresError(setup, s, steps)
    decreases |steps|
  {
    hide Apply, Enabled, StoresError;
    if steps != [] {
      var s' := Apply(setup, s, steps[0]);
      SuccessStaysUnless(setup, s, steps[0]);
      if s'.unlockState == SUCCESS {
        SuccessIsFinalUnless(setup, s', steps[1..]);
      } else {
        SuccessIsNotForgotten(setup, s, steps[0]);
        LostForGood(setup, s', steps[1..]);
      }
    }
  }

  lemma SuccessIsNotForgotten(setup: Setup, s: State, t: Step)
    requires Enabled(s, t) && s.unlockState == SUCCESS
    ensures Apply(setup, s, t).unlockState != UNKNOWN
  {
    hide Judge, Allowed, AnswerState;
  }

  lemma {:induction false} RunsCompose(setup: Setup, s: State, a: seq<Step>, b: seq<Step>)
    requires CanRun(setup, s, a) && CanRun(setup, After(setup, s, a), b)
    ensures CanRun(setup, s, a + b) && After(setup, s, a + b) == After(setup, After(setup, s, a), b)
    decreases |a|
  {
    hide Apply, Enabled;
    if a == [] {
      assert a + b == b;
    } else {
      assert (a + b)[1..] == a[1..] + b;
      RunsCompose(setup, Apply(setup, s, a[0]), a[1..], b);
    }
  }

  lemma OneStep(setup: Setup, s: State, t: Step)
    requires Enabled(s, t)
    ensures CanRun(setup, s, [t]) && After(setup, s, [t]) == Apply(setup, s, t)
  {
    var s' := Apply(setup, s, t);
    assert [t][1..] == [];
    assert CanRun(setup, s', []) && After(setup, s', []) == s';
  }

  lemma TwoSteps(setup: Setup, s: State, t: Step, u: Step)
    requires Enabled(s, t) && Enabled(Apply(setup, s, t), u)
    ensures CanRun(setup, s, [t, u]) && After(setup, s, [t, u]) == Apply(setup, Apply(setup, s, t), u)
  {
    hide Apply, Enabled;
    OneStep(setup, s, t);
    OneStep(setup, Apply(setup, s, t), u);
    RunsCompose(setup, s, [t], [u]);
    assert [t] + [u] == [t, u];
  }

  /** Two connections at a server: the error one phone answers replaces the success of the other. */
  lemma AnswerReplacesSuccess(setup: Setup, s: State, c: nat, d: nat,
                              now: CryptEnvelope.Int64, later: CryptEnvelope.Int64)
    requires c < |s.threads| && d < |s.threads| && c != d && s.unlockState == UNKNOWN
    requires s.threads[c].place.Handling? && s.threads[d].place.Handling?
    requires forall e :: e == c || e == d ==>
               s.threads[e].place.packet.id == Packets.PACKET_ID_UNLOCK_RESPONSE &&
               s.threads[e].place.info.state == HAS_UNLOCK_REQUEST
    requires Judge(setup, s.threads[c].place.info.device, s.threads[c].place.packet.data, now).Valid?
    requires Judge(setup, s.threads[d].place.info.device, s.threads[d].place.packet.data, later).Answered?
    ensures var steps := [Handle(c, now), CommitResponse(c), Handle(d, later)];
            && CanRun(setup, s, steps)
            && |After(setup, s, steps).commits| == |s.commits| + 1
            && After(setup, s, steps).unlockState != SUCCESS
  {
    hide Judge, Allowed, CanRun, After;
    TwoSteps(setup, s, Handle(c, now), CommitResponse(c));
    var s2 := After(setup, s, [Handle(c, now), CommitResponse(c)]);
    OneStep(setup, s2, Handle(d, later));
    RunsCompose(setup, s, [Handle(c, now), CommitResponse(c)], [Handle(d, later)]);
    assert [Handle(c, now), CommitResponse(c)] + [Handle(d, later)]
        == [Handle(c, now), CommitResponse(c), Handle(d, later)];
  }

  // ---- the object as its methods change it ----

  class BaseUnlockConnection {
    const setup: Setup
    var unlockState: UnlockState
    var pairedDevice: Device
    var responseData: Option<ResponseData>
    var connections: map<nat, Info>
    var allowedDevices: seq<Device>

    constructor (s: Setup, device: Device)
      ensures setup == s && unlockState == UNKNOWN && pairedDevice == device && responseData == None
      ensures connections == map[] && allowedDevices == [device]
    {
      setup := s;
      unlockState, pairedDevice, responseData, connections, allowedDevices := UNKNOWN, device, None, map[], [device];
    }

    method HandleUnverifiedError(state: UnlockState, isServerConnection: bool) returns (open: bool)
      modifies `unlockState
      ensures open <==> !isServerConnection
      ensures unlockState == if isServerConnection then old(unlockState) else state
    {
      if isServerConnection {
        return false;
      }
      unlockState := state;
      return true;
    }

    /** A response on a stream whose device is known; the stream stays open unless the result is false. */
    method OnResponseReceived(stream: nat, raw: seq<Byte>, device: Device, isServerConnection: bool,
                              now: CryptEnvelope.Int64)
      returns (open: bool)
      modifies this
      ensures allowedDevices == old(allowedDevices)
      ensures var v := Judge(setup, device, raw, now);
              && (open <==> !(v.Unverified? && isServerConnection))
              && unlockState == (if v.Answered? || (v.Unverified? && !isServerConnection) then v.state
                                 else if v.Valid? && old(unlockState) == UNKNOWN then SUCCESS else old(unlockState))
              && if v.Valid? && old(unlockState) == UNKNOWN then
                   && pairedDevice == device && responseData == Some(v.data)
                   && connections == (if stream in old(connections)
                        then old(connections)[stream := old(connections)[stream].(state := HAS_UNLOCK_RESPONSE)]
                        else old(connections))
                 else && pairedDevice == old(pairedDevice) && responseData == old(responseData)
                      && connections == old(connections)
    {
      hide FromHexString, CryptEnvelope.OpenPacket;
      var responsePacket := setup.parseResponse(raw);
      if responsePacket.None? {
        open := HandleUnverifiedError(DATA_ERROR, isServerConnection);
        return;
      }
      var error := responsePacket.value.error;
      if error != "" {
        unlockState := AnswerState(error);
        return true;
      }
      var cryptData := FromHexString(responsePacket.value.encData);
      var cryptResult := CryptEnvelope.OpenPacket(setup.cipher, cryptData, device.key, now);
      if cryptResult.result != CryptEnvelope.OK {
        if cryptResult.result == CryptEnvelope.INVALID_TIMESTAMP {
          unlockState := TIME_ERROR;
          return true;
        }
        open := HandleUnverifiedError(DATA_ERROR, isServerConnection);
        return;
      }
      var dataPacket := setup.parseData(cryptResult.data);
      if dataPacket.None? {
        unlockState := DATA_ERROR;
        return true;
      }
      if dataPacket.value.unlockToken != setup.unlockToken {
        open := HandleUnverifiedError(UNK_ERROR, isServerConnection);
        return;
      }
      if unlockState != UNKNOWN {
        return true;
      }
      pairedDevice := device;
      responseData := dataPacket;
      unlockState := SUCCESS;
      if stream in connections {
        connections := connections[stream := connections[stream].(state := HAS_UNLOCK_RESPONSE)];
      }
      return true;
    }
  }

  /** Without interruption the steps for a response do what OnResponseReceived does. */
  lemma StepsOfResponse(setup: Setup, s: State, c: nat, now: CryptEnvelope.Int64)
    requires c < |s.threads| && s.threads[c].place.Handling? && c in s.connections
    requires s.threads[c].place.packet.id == Packets.PACKET_ID_UNLOCK_RESPONSE
    requires s.threads[c].place.info.state == HAS_UNLOCK_REQUEST
    ensures var device := s.threads[c].place.info.device;
            var v := Judge(setup, device, s.threads[c].place.packet.data, now);
            var s1 := Apply(setup, s, Handle(c, now));
            && (v.Valid? ==> Enabled(s1, CommitResponse(c)))
            && var s' := if v.Valid? then Apply(setup, s1, CommitResponse(c)) else s1;
            && (s'.threads[c].place.Leaving? <==> v.Unverified? && s.threads[c].needsId)
            && s'.unlockState == (if v.Answered? || (v.Unverified? && !s.threads[c].needsId) then v.state
                                  else if v.Valid? && s.unlockState == UNKNOWN then SUCCESS else s.unlockState)
            && if v.Valid? && s.unlockState == UNKNOWN then
                 && s'.pairedDevice == device && s'.response == Some(v.data)
                 && s'.connections == s.connections[c := s.connections[c].(state := HAS_UNLOCK_RESPONSE)]
               else s'.pairedDevice == s.pairedDevice && s'.response == s.response && s'.connections == s.connections
  {
    hide Judge, Allowed;
  }
}
