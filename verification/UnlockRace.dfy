/**
 A run of two connections to one unlock object that loses a committed success: the error that one phone
 answers is stored over it (common/src/connection/unlock/BaseUnlockConnection.cpp, lines 181-201).
 */
module UnlockRace {
  import opened Options
  import opened Bytes
  import opened Hex
  import CryptEnvelope
  import Packets
  import opened UnlockResults
  import opened UnlockProtocol
  import opened UnlockConnections

  function IdPacket(device: Device): Packets.Packet {
    Packets.Packet(Packets.NONE, Packets.PACKET_ID_DEVICE_ID, device.id)
  }

  function ResponsePacket(raw: seq<Byte>): Packets.Packet {
    Packets.Packet(Packets.NONE, Packets.PACKET_ID_UNLOCK_RESPONSE, raw)
  }

  /** A connection registers and reads the device id. */
  function Arriving(c: nat, device: Device): seq<Step> {
    [Register(c), Read(c, IdPacket(device))]
  }

  /** The id is looked up and found to be allowed. */
  function Identifying(c: nat, now: CryptEnvelope.Int64): seq<Step> {
    [Look(c), Handle(c, now)]
  }

  /** The request is written and noted. */
  function Requesting(c: nat): seq<Step> {
    [WriteRequest(c, Packets.NONE), NoteRequest(c)]
  }

  /** The response arrives. */
  function Answering(c: nat, raw: seq<Byte>): seq<Step> {
    [Read(c, ResponsePacket(raw)), Look(c)]
  }

  /** From its registration to the response in hand. */
  function Opening(c: nat, device: Device, raw: seq<Byte>, now: CryptEnvelope.Int64): seq<Step> {
    Arriving(c, device) + Identifying(c, now) + Requesting(c) + Answering(c, raw)
  }

  /** The thread of a connection and its entry; all else is as in s. */
  predicate Reached(s: State, s': State, c: nat, p: Place, info: Info)
    requires c < |s.threads|
  {
    && s'.threads == s.threads[c := s.threads[c].(place := p)]
    && s'.connections == s.connections[c := info]
    && s'.unlockState == s.unlockState && s'.allowed == s.allowed
    && s'.commits == s.commits && s'.response == s.response
  }

  lemma Arrives(setup: Setup, s: State, c: nat, device: Device)
    requires c < |s.threads| && s.threads[c] == Thread(true, Fresh)
    ensures CanRun(setup, s, Arriving(c, device))
    ensures Reached(s, After(setup, s, Arriving(c, device)), c, Got(IdPacket(device)), Info(NONE, NO_DEVICE))
  {
    TwoSteps(setup, s, Register(c), Read(c, IdPacket(device)));
  }

  lemma Identifies(setup: Setup, s: State, c: nat, device: Device, now: CryptEnvelope.Int64)
    requires c < |s.threads| && s.threads[c] == Thread(true, Got(IdPacket(device)))
    requires c in s.connections && s.connections[c] == Info(NONE, NO_DEVICE)
    requires Allowed(s.allowed, device.id) == Some(device)
    ensures CanRun(setup, s, Identifying(c, now))
    ensures Reached(s, After(setup, s, Identifying(c, now)), c, Identified(device), Info(NONE, NO_DEVICE))
  {
    hide Allowed, Judge;
    TwoSteps(setup, s, Look(c), Handle(c, now));
  }

  lemma Requests(setup: Setup, s: State, c: nat, device: Device)
    requires c < |s.threads| && s.threads[c] == Thread(true, Identified(device)) && c in s.connections
    ensures CanRun(setup, s, Requesting(c))
    ensures Reached(s, After(setup, s, Requesting(c)), c, Reading, Info(HAS_UNLOCK_REQUEST, device))
  {
    TwoSteps(setup, s, WriteRequest(c, Packets.NONE), NoteRequest(c));
  }

  lemma Answers(setup: Setup, s: State, c: nat, info: Info, raw: seq<Byte>)
    requires c < |s.threads| && s.threads[c] == Thread(true, Reading) && c in s.connections && s.connections[c] == info
    ensures CanRun(setup, s, Answering(c, raw))
    ensures Reached(s, After(setup, s, Answering(c, raw)), c, Handling(ResponsePacket(raw), info), info)
  {
    TwoSteps(setup, s, Read(c, ResponsePacket(raw)), Look(c));
  }

  lemma Opens(setup: Setup, s: State, c: nat, device: Device, raw: seq<Byte>, now: CryptEnvelope.Int64)
    requires c < |s.threads| && s.threads[c] == Thread(true, Fresh) && Allowed(s.allowed, device.id) == Some(device)
    ensures CanRun(setup, s, Opening(c, device, raw, now))
    ensures var info := Info(HAS_UNLOCK_REQUEST, device);
            Reached(s, After(setup, s, Opening(c, device, raw, now)), c, Handling(ResponsePacket(raw), info), info)
  {
    hide Allowed, CanRun, After, Arriving, Identifying, Requesting, Answering;
    var info := Info(HAS_UNLOCK_REQUEST, device);
    Arrives(setup, s, c, device);
    var s1 := After(setup, s, Arriving(c, device));
    Identifies(setup, s1, c, device, now);
    var s2 := After(setup, s1, Identifying(c, now));
    Requests(setup, s2, c, device);
    var s3 := After(setup, s2, Requesting(c));
    Answers(setup, s3, c, info, raw);
    RunsCompose(setup, s, Arriving(c, device), Identifying(c, now));
    RunsCompose(setup, s, Arriving(c, device) + Identifying(c, now), Requesting(c));
    RunsCompose(setup, s, Arriving(c, device) + Identifying(c, now) + Requesting(c), Answering(c, raw));
  }

  /** Two phones open a connection each; the first one's success is committed, then the second one's error arrives. */
  function Race(d0: Device, raw0: seq<Byte>, d1: Device, raw1: seq<Byte>, now: CryptEnvelope.Int64): seq<Step> {
    Opening(0, d0, raw0, now) + Opening(1, d1, raw1, now) + [Handle(0, now), CommitResponse(0), Handle(1, now)]
  }

  /** The run starts with a fresh unlock object and ends with a committed response and an error as its state. */
  lemma RaceLosesSuccess(setup: Setup, paired: Device, d0: Device, raw0: seq<Byte>, d1: Device, raw1: seq<Byte>,
                         now: CryptEnvelope.Int64)
    requires d0.id != d1.id && Judge(setup, d0, raw0, now).Valid? && Judge(setup, d1, raw1, now).Answered?
    ensures var start, steps := Start(paired, [d0, d1], [true, true]), Race(d0, raw0, d1, raw1, now);
            && CanRun(setup, start, steps)
            && |After(setup, start, steps).commits| == 1
            && After(setup, start, steps).unlockState != SUCCESS
  {
    hide Judge, Allowed, CanRun, After, Opening;
    var start := Start(paired, [d0, d1], [true, true]);
    BothAllowed(d0, d1);
    Opens(setup, start, 0, d0, raw0, now);
    var s1 := After(setup, start, Opening(0, d0, raw0, now));
    Opens(setup, s1, 1, d1, raw1, now);
    var s2 := After(setup, s1, Opening(1, d1, raw1, now));
    AnswerReplacesSuccess(setup, s2, 0, 1, now, now);
    RunsCompose(setup, start, Opening(0, d0, raw0, now), Opening(1, d1, raw1, now));
    RunsCompose(setup, start, Opening(0, d0, raw0, now) + Opening(1, d1, raw1, now),
                [Handle(0, now), CommitResponse(0), Handle(1, now)]);
  }

  lemma BothAllowed(d0: Device, d1: Device)
    requires d0.id != d1.id
    ensures Allowed([d0, d1], d0.id) == Some(d0) && Allowed([d0, d1], d1.id) == Some(d1)
  {
    assert [d0, d1][1..] == [d1];
  }

  // ---- such a pair of responses ----

  function Zeros16(): (b: seq<Byte>)
    ensures |b| == 16
  {
    seq(16, _ => 0)
  }

  /** The simplest lawful cipher. */
  function PlainCipher(): CryptEnvelope.Cipher {
    CryptEnvelope.Cipher((_, salt) => salt, (_, _, data) => data, (_, _, data) => data, (_, _, _) => Zeros16())
  }

  /** The empty packet reads as a refusal, any other one as the sealed payload of one byte. */
  function ExampleSetup(key: string): Setup {
    var sealed := CryptEnvelope.SealPacket(PlainCipher(), [1], key, 0, Zeros16(), Zeros16()).data;
    Setup(PlainCipher(),
          raw => Some(if raw == [] then Response("CANCEL", "") else Response("", ToHexString(sealed))),
          _ => Some(ResponseData("token", "password key")), "token")
  }

  /** Devices and responses as RaceLosesSuccess asks for them exist: the race can happen. */
  lemma RaceHappens()
    ensures exists setup: Setup, paired: Device, allowed: seq<Device>, needsId: seq<bool>, steps: seq<Step> ::
              && setup.cipher.Lawful() && CanRun(setup, Start(paired, allowed, needsId), steps)
              && After(setup, Start(paired, allowed, needsId), steps).commits != []
              && After(setup, Start(paired, allowed, needsId), steps).unlockState != SUCCESS
  {
    hide CryptEnvelope.SealPacket, ToHexString, CanRun, After, Race;
    var d0, d1 := Device([0], "key"), Device([1], "other key");
    var setup := ExampleSetup(d0.key);
    FreshNow();
    SealedIsAccepted(setup, d0, [7], 0, 0, [1], Zeros16(), Zeros16(), ResponseData("token", "password key"));
    assert Judge(setup, d1, [], 0).Answered?;
    RaceLosesSuccess(setup, NO_DEVICE, d0, [7], d1, [], 0);
  }

  lemma FreshNow()
    ensures CryptEnvelope.Fresh(0, 0)
  {
  }
}
