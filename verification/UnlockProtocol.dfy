/**
 What a connection makes of a response packet (OnResponseReceived, HandleUnverifiedError,
 FindAllowedDevice and MapPacketError of common/src/connection/unlock/BaseUnlockConnection.cpp).
 */
module UnlockProtocol {
  import opened Options
  import opened Bytes
  import opened Hex
  import CryptEnvelope
  import Packets
  import opened UnlockResults

  datatype Device = Device(id: seq<Byte>, key: string)

  /** A parsed response packet and a parsed response payload. */
  datatype Response = Response(error: string, encData: string)
  datatype ResponseData = ResponseData(unlockToken: string, passwordKey: string)

  /** What does not change while connections run: the cipher, the parsers, the token of this unlock. */
  datatype Setup = Setup(
    cipher: CryptEnvelope.Cipher,
    parseResponse: seq<Byte> -> Option<Response>,
    parseData: seq<Byte> -> Option<ResponseData>,
    unlockToken: string)

  function MapPacketError(error: Packets.PacketError, fallback: UnlockState): (s: UnlockState)
    ensures s == UnlockState.UNKNOWN ==> fallback == UnlockState.UNKNOWN
    ensures s == SUCCESS ==> fallback == SUCCESS
  {
    match error
    case CLOSED_CONNECTION => CONNECT_ERROR
    case TIMEOUT => UnlockState.TIMEOUT
    case UNSUPPORTED_VERSION => PROTOCOL_ERROR
    case PEER_UNAVAILABLE => CLOUD_PHONE_UNREACHABLE
    case _ => fallback
  }

  function AnswerState(error: string): (s: UnlockState)
    ensures s != UnlockState.UNKNOWN && s != SUCCESS
  {
    if error == "CANCEL" then CANCELED
    else if error == "NOT_PAIRED" then NOT_PAIRED_ERROR
    else if error == "APP_ERROR" then APP_ERROR
    else if error == "TIME_ERROR" then TIME_ERROR
    else if error == "DATA_ERROR" then DATA_ERROR
    else if error == "PROTOCOL_ERROR" then PROTOCOL_ERROR
    else UNK_ERROR
  }

  /** Unverified errors may come from anybody who connects; answers end the unlock. */
  datatype Verdict = Unverified(state: UnlockState) | Answered(state: UnlockState) | Valid(data: ResponseData)

  function Judge(setup: Setup, device: Device, raw: seq<Byte>, now: CryptEnvelope.Int64): (v: Verdict)
    ensures !v.Valid? ==> v.state != UnlockState.UNKNOWN && v.state != SUCCESS
  {
    var response := setup.parseResponse(raw);
    if response.None? then Unverified(DATA_ERROR)
    else if response.value.error != "" then Answered(AnswerState(response.value.error))
    else
      var crypt := CryptEnvelope.OpenPacket(setup.cipher, FromHexString(response.value.encData), device.key, now);
      if crypt.result == CryptEnvelope.INVALID_TIMESTAMP then Answered(TIME_ERROR)
      else if crypt.result != CryptEnvelope.OK then Unverified(DATA_ERROR)
      else
        var data := setup.parseData(crypt.data);
        if data.None? then Answered(DATA_ERROR)
        else if data.value.unlockToken != setup.unlockToken then Unverified(UNK_ERROR)
        else Valid(data.value)
  }

  /** The payload of an accepted response equals a packet sealed under the device's key within two minutes. */
  lemma ValidIsAuthentic(setup: Setup, device: Device, raw: seq<Byte>, now: CryptEnvelope.Int64)
    returns (sent: CryptEnvelope.Int64, plain: seq<Byte>, sealed: seq<Byte>)
    requires setup.cipher.Lawful() && Judge(setup, device, raw, now).Valid?
    ensures setup.parseResponse(raw).Some? && sealed == FromHexString(setup.parseResponse(raw).value.encData)
    ensures |sealed| >= 48 && CryptEnvelope.Fresh(now, sent)
    ensures CryptEnvelope.SealPacket(setup.cipher, plain, device.key, sent, sealed[..16], sealed[16..32])
         == CryptEnvelope.CryptPacket(CryptEnvelope.OK, sealed)
    ensures setup.parseData(plain) == Some(Judge(setup, device, raw, now).data)
    ensures Judge(setup, device, raw, now).data.unlockToken == setup.unlockToken
  {
    hide CryptEnvelope.OpenPacket, CryptEnvelope.SealPacket, CryptEnvelope.Fresh, FromHexString;
    sealed := FromHexString(setup.parseResponse(raw).value.encData);
    plain := CryptEnvelope.OpenPacket(setup.cipher, sealed, device.key, now).data;
    sent := CryptEnvelope.AcceptedWasSealed(setup.cipher, sealed, device.key, now);
  }

  /** A response sealed under the device's key within two minutes, with the token of this unlock, is accepted. */
  lemma SealedIsAccepted(setup: Setup, device: Device, raw: seq<Byte>, now: CryptEnvelope.Int64,
                         sent: CryptEnvelope.Int64, plain: seq<Byte>, iv: seq<Byte>, salt: seq<Byte>,
                         data: ResponseData)
    requires setup.cipher.Lawful() && |iv| == 16 && |salt| == 16
    requires 1 <= |plain| <= 1992 && CryptEnvelope.Fresh(now, sent)
    requires var sealed := CryptEnvelope.SealPacket(setup.cipher, plain, device.key, sent, iv, salt);
             setup.parseResponse(raw) == Some(Response("", ToHexString(sealed.data)))
    requires setup.parseData(plain) == Some(data) && data.unlockToken == setup.unlockToken
    ensures Judge(setup, device, raw, now) == Valid(data)
  {
    hide CryptEnvelope.OpenPacket, CryptEnvelope.SealPacket, CryptEnvelope.Fresh, ToHexString, Unhex;
    CryptEnvelope.PacketRoundTrip(setup.cipher, plain, device.key, sent, now, iv, salt);
    HexReadBack(CryptEnvelope.SealPacket(setup.cipher, plain, device.key, sent, iv, salt).data);
  }

  /** What the phone says went wrong. */
  lemma PhoneAnswers(other: string)
    ensures AnswerState("CANCEL") == CANCELED && AnswerState("NOT_PAIRED") == NOT_PAIRED_ERROR
    ensures AnswerState("APP_ERROR") == APP_ERROR && AnswerState("TIME_ERROR") == TIME_ERROR
    ensures AnswerState("DATA_ERROR") == DATA_ERROR && AnswerState("PROTOCOL_ERROR") == PROTOCOL_ERROR
    ensures other !in {"CANCEL", "NOT_PAIRED", "APP_ERROR", "TIME_ERROR", "DATA_ERROR", "PROTOCOL_ERROR"} ==>
              AnswerState(other) == UNK_ERROR
  {
  }

  /** The verdict on every packet sealed under the device's key. */
  lemma VerdictOnSealed(setup: Setup, device: Device, raw: seq<Byte>, now: CryptEnvelope.Int64,
                        sent: CryptEnvelope.Int64, plain: seq<Byte>, iv: seq<Byte>, salt: seq<Byte>)
    requires setup.cipher.Lawful() && |iv| == 16 && |salt| == 16 && 1 <= |plain| <= 1992
    requires var sealed := CryptEnvelope.SealPacket(setup.cipher, plain, device.key, sent, iv, salt);
             setup.parseResponse(raw) == Some(Response("", ToHexString(sealed.data)))
    ensures var data := setup.parseData(plain);
            Judge(setup, device, raw, now) ==
            if !CryptEnvelope.Fresh(now, sent) then Answered(TIME_ERROR)
            else if data.None? then Answered(DATA_ERROR)
            else if data.value.unlockToken == setup.unlockToken then Valid(data.value)
            else Unverified(UNK_ERROR)
  {
    hide CryptEnvelope.OpenPacket, CryptEnvelope.SealPacket, CryptEnvelope.Fresh, ToHexString, Unhex;
    HexReadBack(CryptEnvelope.SealPacket(setup.cipher, plain, device.key, sent, iv, salt).data);
    CryptEnvelope.PacketRoundTrip(setup.cipher, plain, device.key, sent, now, iv, salt);
    if !CryptEnvelope.Fresh(now, sent) {
      CryptEnvelope.StaleIsTold(setup.cipher, plain, device.key, sent, now, iv, salt);
    }
  }

  /** Without an error from the phone nothing but a packet sealed under the device's key counts as its answer. */
  lemma AnsweredWasSealed(setup: Setup, device: Device, raw: seq<Byte>, now: CryptEnvelope.Int64)
    returns (sent: CryptEnvelope.Int64, plain: seq<Byte>, sealed: seq<Byte>)
    requires setup.cipher.Lawful() && Judge(setup, device, raw, now).Answered?
    requires setup.parseResponse(raw).Some? ==> setup.parseResponse(raw).value.error == ""
    ensures |sealed| >= 48
    ensures setup.parseResponse(raw).Some? && sealed == FromHexString(setup.parseResponse(raw).value.encData)
    ensures CryptEnvelope.SealPacket(setup.cipher, plain, device.key, sent, sealed[..16], sealed[16..32])
         == CryptEnvelope.CryptPacket(CryptEnvelope.OK, sealed)
  {
    hide CryptEnvelope.OpenPacket, CryptEnvelope.SealPacket, CryptEnvelope.Fresh, FromHexString;
    sealed := FromHexString(setup.parseResponse(raw).value.encData);
    var crypt := CryptEnvelope.OpenPacket(setup.cipher, sealed, device.key, now);
    if crypt.result.INVALID_TIMESTAMP? {
      sent, plain := CryptEnvelope.StaleWasSealed(setup.cipher, sealed, device.key, now);
    } else {
      sent := CryptEnvelope.AcceptedWasSealed(setup.cipher, sealed, device.key, now);
      plain := crypt.data;
    }
  }

  /** The verdict on what cannot be read, and on what the phone says itself. */
  lemma VerdictOnOthers(setup: Setup, device: Device, raw: seq<Byte>, now: CryptEnvelope.Int64)
    ensures setup.parseResponse(raw).None? ==> Judge(setup, device, raw, now) == Unverified(DATA_ERROR)
    ensures setup.parseResponse(raw).Some? && setup.parseResponse(raw).value.error != "" ==>
              Judge(setup, device, raw, now) == Answered(AnswerState(setup.parseResponse(raw).value.error))
    ensures Judge(setup, device, raw, now).Unverified? ==>
              Judge(setup, device, raw, now).state in {DATA_ERROR, UNK_ERROR}
    ensures setup.parseResponse(raw).Some? && setup.parseResponse(raw).value.error == "" ==>
              var sealed := FromHexString(setup.parseResponse(raw).value.encData);
              CryptEnvelope.OpenPacket(setup.cipher, sealed, device.key, now).result.OTHER_ERROR? ==>
                Judge(setup, device, raw, now) == Unverified(DATA_ERROR)
  {
    hide CryptEnvelope.OpenPacket, FromHexString, AnswerState;
  }

  /** The first allowed device with this id. */
  function Allowed(devices: seq<Device>, id: seq<Byte>): (d: Option<Device>)
    ensures d.Some? ==> d.value in devices && d.value.id == id
    ensures d.None? <==> forall k :: 0 <= k < |devices| ==> devices[k].id != id
  {
    if devices == [] then None
    else if devices[0].id == id then Some(devices[0])
    else Allowed(devices[1..], id)
  }

  /** Of several devices with the id it is the first. */
  lemma {:induction false} AllowedIsFirst(devices: seq<Device>, id: seq<Byte>)
    ensures Allowed(devices, id).Some? ==>
              exists k :: 0 <= k < |devices| && devices[k] == Allowed(devices, id).value
                       && forall j :: 0 <= j < k ==> devices[j].id != id
  {
    if devices != [] && devices[0].id != id && Allowed(devices, id).Some? {
      AllowedIsFirst(devices[1..], id);
      var k :| 0 <= k < |devices| - 1 && devices[1..][k] == Allowed(devices, id).value
            && forall j :: 0 <= j < k ==> devices[1..][j].id != id;
      assert devices[k + 1] == Allowed(devices, id).value;
      forall j | 0 <= j < k + 1 ensures devices[j].id != id {
        if j > 0 {
          assert devices[1..][j - 1].id != id;
        }
      }
    }
  }

  method FindAllowedDevice(devices: seq<Device>, id: seq<Byte>) returns (d: Option<Device>)
    ensures d == Allowed(devices, id)
  {
    assert devices[0..] == devices;
    for k := 0 to |devices|
      invariant Allowed(devices, id) == Allowed(devices[k..], id)
    {
      if devices[k].id == id {
        return Some(devices[k]);
      }
      assert devices[k..][1..] == devices[k + 1..];
    }
    return None;
  }
}
