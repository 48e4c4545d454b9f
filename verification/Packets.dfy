/** Packets and the errors of reading and writing them (common/src/connection/BaseConnection.h). */
module Packets {
  import opened Bytes

  datatype PacketError = UNKNOWN | NONE | CLOSED_CONNECTION | TIMEOUT | UNSUPPORTED_VERSION | PEER_UNAVAILABLE

  datatype Packet = Packet(error: PacketError, id: nat, data: seq<Byte>)

  const PACKET_ID_DEVICE_ID := 0xB0
  const PACKET_ID_UNLOCK_REQUEST := 0xB1
  const PACKET_ID_UNLOCK_RESPONSE := 0xB2
}
