/**
 Reading and writing packets over streams that deliver and accept bytes in pieces
 (ReadPacket, ReadData and WritePacket of common/src/connection/BaseConnection.cpp, Write and Flush of
 common/src/connection/stream/ConnectionStream.cpp, ReadFrom of WebSocketStream.cpp beside it).
 */
module PacketStream {
  import opened Bytes
  import opened Packets
  import opened PacketFraming

  /** What one call to the network does: nothing yet, up to n bytes, or an error. */
  datatype Event = Idle | Transfer(n: nat) | Broken(error: PacketError)

  /** What one wait for a web socket message brings: a message, empty perhaps, or an error. */
  datatype Received = Message(data: seq<Byte>) | Failure(error: PacketError)

  /** The bytes of the messages. */
  function Flatten(messages: seq<Received>): seq<Byte> {
    if messages == [] then []
    else (if messages[0].Message? then messages[0].data else []) + Flatten(messages[1..])
  }

  lemma FlattenFirst(messages: seq<Received>)
    ensures Flatten(messages)
         == if messages == [] then [] else
            (if messages[0].Message? then messages[0].data else []) + Flatten(messages[1..])
  {
  }

  lemma TakeFrom(buffer: seq<Byte>, at: nat, count: nat, later: seq<Byte>)
    requires at + count <= |buffer|
    ensures buffer[at..] + later == buffer[at..at + count] + (buffer[at + count..] + later)
  {
  }

  function Min(a: nat, b: nat): nat {
    if a < b then a else b
  }

  /** A socket or a web socket.  When the events of a socket run out, it transfers all it can. */
  class ConnectionStream {
    const isWebSocket: bool
    // socket
    var incoming: seq<Byte>
    var readEvents: seq<Event>
    // web socket
    var readBuffer: seq<Byte>
    var readOffset: nat
    var messages: seq<Received>
    // writing
    var writeBuffer: seq<Byte>
    var writeEvents: seq<Event>
    var sent: seq<Byte>

    constructor Socket(bytes: seq<Byte>, readPlan: seq<Event>, writePlan: seq<Event>)
      ensures !isWebSocket && Valid() && Pending() == bytes && readEvents == readPlan && messages == []
      ensures sent == [] && writeBuffer == [] && writeEvents == writePlan
    {
      isWebSocket := false;
      incoming, readEvents, readBuffer, readOffset, messages := bytes, readPlan, [], 0, [];
      writeBuffer, writeEvents, sent := [], writePlan, [];
    }

    constructor WebSocket(received: seq<Received>, writePlan: seq<Event>)
      requires forall k :: 0 <= k < |received| && received[k].Failure? ==> received[k].error != NONE
      ensures isWebSocket && Valid() && Pending() == Flatten(received) && messages == received && readEvents == []
      ensures sent == [] && writeBuffer == [] && writeEvents == writePlan
    {
      isWebSocket := true;
      incoming, readEvents, readBuffer, readOffset, messages := [], [], [], 0, received;
      writeBuffer, writeEvents, sent := [], writePlan, [];
    }

    ghost predicate Valid()
      reads this
    {
      && readOffset <= |readBuffer|
      && forall k :: 0 <= k < |messages| && messages[k].Failure? ==> messages[k].error != NONE
    }

    /** The bytes that are still to come. */
    function Pending(): seq<Byte>
      reads this
    {
      if !isWebSocket then incoming
      else if readOffset <= |readBuffer| then readBuffer[readOffset..] + Flatten(messages) else Flatten(messages)
    }

    /** No error before the end of the stream. */
    ghost predicate Reliable()
      reads `readEvents, `messages
    {
      && (forall k :: 0 <= k < |readEvents| ==> !readEvents[k].Broken?)
      && (forall k :: 0 <= k < |messages| ==> messages[k].Message?)
    }

    ghost function Work(): nat
      reads this
    {
      |Pending()| + (if isWebSocket then 0 else |readEvents|)
    }

    method ReadSocket(length: nat) returns (data: seq<Byte>, error: PacketError)
      requires !isWebSocket && length > 0
      modifies `incoming, `readEvents
      ensures old(incoming) == data + incoming && |data| <= length
      ensures data != [] ==> error == NONE
      ensures error == NONE ==> |incoming| + |readEvents| < old(|incoming| + |readEvents|)
      ensures old(Reliable()) ==> Reliable() && (error != NONE ==> old(incoming) == [])
    {
      var n := length;
      if readEvents != [] {
        var e := readEvents[0];
        readEvents := readEvents[1..];
        if e.Idle? {
          return [], NONE;
        }
        if e.Broken? {
          return [], e.error;
        }
        n := Min(length, e.n);
      } else if incoming == [] {
        return [], CLOSED_CONNECTION;
      }
      n := Min(n, |incoming|);
      data, error := incoming[..n], NONE;
      incoming := incoming[n..];
    }

    /** Waits for the next message, which may fail. */
    method NextMessage() returns (error: PacketError)
      requires isWebSocket && Valid() && readOffset >= |readBuffer|
      modifies `readBuffer, `readOffset, `messages
      ensures Valid() && Pending() == old(Pending())
      ensures error == NONE ==> |messages| < old(|messages|)
      ensures error != NONE ==> readBuffer == []
      ensures old(Reliable()) ==> Reliable() && (error != NONE ==> old(Pending()) == [])
    {
      hide Flatten;
      FlattenFirst(messages);
      readBuffer := [];
      readOffset := 0;
      if messages == [] {
        return CLOSED_CONNECTION;
      }
      var next := messages[0];
      messages := messages[1..];
      if next.Failure? {
        return next.error;
      }
      readBuffer := next.data;
      return NONE;
    }

    /** Takes bytes from the message at hand, waiting for the next one when it is used up. */
    method ReadFrom(length: nat) returns (data: seq<Byte>, error: PacketError)
      requires isWebSocket && Valid() && length > 0
      modifies `readBuffer, `readOffset, `messages
      ensures Valid() && old(Pending()) == data + Pending() && |data| <= length
      ensures error == NONE <==> data != []
      ensures old(Reliable()) ==> Reliable() && (error == NONE <==> old(Pending()) != [])
    {
      hide Pending, Reliable;
      while readOffset >= |readBuffer|
        invariant Valid() && Pending() == old(Pending())
        invariant old(Reliable()) ==> Reliable()
        decreases |messages|, |readBuffer| - readOffset
      {
        error := NextMessage();
        if error != NONE {
          return [], error;
        }
      }
      data := TakeBytes(length);
      error := NONE;
    }

    /** A piece of the message at hand. */
    method TakeBytes(length: nat) returns (data: seq<Byte>)
      requires isWebSocket && Valid() && length > 0 && readOffset < |readBuffer|
      modifies `readOffset
      ensures Valid() && old(Pending()) == data + Pending() && 0 < |data| <= length
    {
      hide Flatten;
      var count := Min(|readBuffer| - readOffset, length);
      TakeFrom(readBuffer, readOffset, count, Flatten(messages));
      data := readBuffer[readOffset..readOffset + count];
      readOffset := readOffset + count;
    }

    /** Whichever stream it is: a piece of what is pending, or nothing, or an error. */
    method Read(length: nat) returns (data: seq<Byte>, error: PacketError)
      requires Valid() && length > 0
      modifies `incoming, `readEvents, `readBuffer, `readOffset, `messages
      ensures Valid() && old(Pending()) == data + Pending() && |data| <= length
      ensures data != [] ==> error == NONE
      ensures error == NONE ==> Work() < old(Work())
      ensures old(Reliable()) ==> Reliable() && (error != NONE ==> old(Pending()) == [])
    {
      if isWebSocket {
        data, error := ReadFrom(length);
      } else {
        data, error := ReadSocket(length);
      }
    }

    /** Reads byte by byte until the matcher has the whole header. */
    method ReadHeader() returns (error: PacketError)
      requires Valid()
      modifies `incoming, `readEvents, `readBuffer, `readOffset, `messages
      ensures Valid() && (old(Reliable()) ==> Reliable())
      ensures error == NONE ==>
                var end := HeaderEnd(old(Pending()), 0);
                end.Some? && Pending() == old(Pending())[end.value..]
      ensures old(Reliable()) && error != NONE ==> HeaderEnd(old(Pending()), 0).None?
    {
      hide HeaderEnd, CountAfter, Header, Reliable, Pending, Work, Valid, Matched;
      var correctHeaderBytes := 0;
      ghost var seen := [];
      NothingMatched();
      assert [] + Pending() == Pending();
      while correctHeaderBytes < 8
        invariant Valid() && (old(Reliable()) ==> Reliable())
        invariant correctHeaderBytes <= 8 && Matched(seen, correctHeaderBytes)
        invariant old(Pending()) == seen + Pending()
        decreases Work()
      {
        ghost var before := Pending();
        var data;
        data, error := Read(1);
        if data == [] {
          assert [] + Pending() == Pending();
          if error != NONE {
            MatchedAll(seen, before, correctHeaderBytes);
            return;
          }
        } else {
          MatchOneMore(seen, correctHeaderBytes, data[0]);
          correctHeaderBytes := Advance(correctHeaderBytes, data[0]);
          assert seen + before == seen + [data[0]] + Pending();
          seen := seen + [data[0]];
        }
      }
      MatchedAll(seen, Pending(), correctHeaderBytes);
      error := NONE;
    }

    /** Exactly size bytes, or an error. */
    method ReadData(size: nat) returns (error: PacketError, buffer: seq<Byte>)
      requires Valid()
      modifies `incoming, `readEvents, `readBuffer, `readOffset, `messages
      ensures Valid() && (old(Reliable()) ==> Reliable())
      ensures error == NONE ==> |buffer| == size && old(Pending()) == buffer + Pending()
      ensures old(Reliable()) && error != NONE ==> |old(Pending())| < size
    {
      hide Reliable, Pending, Work, Valid;
      buffer := [];
      error := NONE;
      while |buffer| < size
        invariant Valid() && (old(Reliable()) ==> Reliable())
        invariant |buffer| <= size && old(Pending()) == buffer + Pending()
        decreases Work()
      {
        var data;
        data, error := Read(size - |buffer|);
        if data == [] {
          assert [] + Pending() == Pending();
          if error != NONE {
            return error, [];
          }
        } else {
          buffer := buffer + data;
        }
      }
      error := NONE;
    }

    method ReadPacket() returns (p: Packet)
      requires Valid()
      modifies `incoming, `readEvents, `readBuffer, `readOffset, `messages
      ensures Valid() && (old(Reliable()) ==> Reliable())
      ensures p.error == NONE ==> ParsePacket(old(Pending())) == Got(p, Pending())
      ensures p.error != NONE ==> p == Packet(p.error, 0, [])
      ensures old(Reliable()) ==>
                match ParsePacket(old(Pending()))
                case Got(packet, rest) => p == packet && Pending() == rest
                case Empty(rest) => p == Packet(UNKNOWN, 0, []) && Pending() == rest
                case Incomplete => p.error != NONE
    {
      hide HeaderEnd, Reliable, Pending, Valid, FromTwoBytes, ParseBody;
      var error := ReadHeader();
      if error != NONE {
        return Packet(error, 0, []);
      }
      ghost var body := Pending();
      if |body| < 4 {
        ShortBody(body);
      }
      var result, id := ReadData(2);
      if result != NONE {
        return Packet(result, 0, []);
      }
      var packetId := FromTwoBytes(id);
      var length;
      result, length := ReadData(2);
      if result != NONE {
        return Packet(result, 0, []);
      }
      var packetLength := FromTwoBytes(length);
      ghost var tail := Pending();
      BodyOf(id, length, tail);
      if packetLength == 0 {
        return Packet(UNKNOWN, 0, []);
      }
      var bytes;
      result, bytes := ReadData(packetLength);
      if result != NONE {
        return Packet(result, 0, []);
      }
      assert tail[..packetLength] == bytes && tail[packetLength..] == Pending();
      return Packet(NONE, packetId, bytes);
    }

    // ---- writing ----

    /** No error while writing. */
    ghost predicate Accepting()
      reads `writeEvents
    {
      forall k :: 0 <= k < |writeEvents| ==> !writeEvents[k].Broken?
    }

    method WriteRaw(bytes: seq<Byte>) returns (n: nat, error: PacketError)
      requires bytes != []
      modifies `writeEvents, `sent
      ensures n <= |bytes| && sent == old(sent) + bytes[..n]
      ensures n > 0 || error != NONE || |writeEvents| < old(|writeEvents|)
      ensures |writeEvents| <= old(|writeEvents|)
      ensures old(Accepting()) ==> Accepting() && error == NONE
    {
      n := |bytes|;
      error := NONE;
      if writeEvents != [] {
        var e := writeEvents[0];
        writeEvents := writeEvents[1..];
        n := if e.Transfer? then Min(e.n, |bytes|) else 0;
        if e.Broken? {
          error := e.error;
        }
      }
      sent := sent + bytes[..n];
    }

    method Write(bytes: seq<Byte>)
      modifies `writeBuffer
      ensures writeBuffer == old(writeBuffer) + bytes
    {
      writeBuffer := writeBuffer + bytes;
    }

    /** Everything buffered is sent, or after an error a prefix of it; the buffer is empty in any case. */
    method Flush() returns (error: PacketError, ghost n: nat)
      modifies `writeBuffer, `writeEvents, `sent
      ensures writeBuffer == []
      ensures n <= old(|writeBuffer|) && sent == old(sent) + old(writeBuffer[..n])
      ensures error == NONE ==> n == old(|writeBuffer|)
      ensures old(Accepting()) ==> Accepting() && error == NONE
    {
      hide Accepting;
      var bytesWritten := 0;
      ghost var all := writeBuffer;
      while bytesWritten < |writeBuffer|
        invariant writeBuffer == all && bytesWritten <= |all| && sent == old(sent) + all[..bytesWritten]
        invariant old(Accepting()) ==> Accepting()
        decreases |all| - bytesWritten, |writeEvents|
      {
        var rest := writeBuffer[bytesWritten..];
        var bytes;
        bytes, error := WriteRaw(rest);
        assert all[..bytesWritten] + rest[..bytes] == all[..bytesWritten + bytes];
        if bytes > 0 {
          bytesWritten := bytesWritten + bytes;
          continue;
        }
        if error != NONE {
          writeBuffer := [];
          return error, bytesWritten;
        }
      }
      assert all[..|all|] == all;
      writeBuffer := [];
      return NONE, |all|;
    }

    method WritePacket(id: nat, data: seq<Byte>) returns (error: PacketError)
      requires id < UINT16
      modifies `writeBuffer, `writeEvents, `sent
      ensures writeBuffer == []
      ensures error == NONE ==> sent == old(sent) + (old(writeBuffer) + Frame(id, data))
      ensures old(sent) <= sent <= old(sent) + (old(writeBuffer) + Frame(id, data))
      ensures old(Accepting()) ==> Accepting() && error == NONE
    {
      hide Accepting, Header, TwoBytes;
      Write(Header());
      Write(TwoBytes(id));
      Write(TwoBytes(|data| % UINT16));
      Write(data);
      assert writeBuffer == old(writeBuffer) + Frame(id, data);
      ghost var n;
      error, n := Flush();
    }
  }

  lemma NothingMatched()
    ensures Matched([], 0)
  {
  }

  // ---- a sender and a receiver ----

  method SendAll(stream: ConnectionStream, packets: seq<Packet>)
    requires stream.writeBuffer == [] && stream.Accepting()
    requires forall k :: 0 <= k < |packets| ==> Sendable(packets[k])
    modifies stream
    ensures stream.sent == old(stream.sent) + Wire(packets)
  {
    hide Frame, Wire;
    assert packets[0..] == packets;
    for k := 0 to |packets|
      invariant stream.writeBuffer == [] && stream.Accepting()
      invariant stream.sent + Wire(packets[k..]) == old(stream.sent) + Wire(packets)
    {
      WireStep(packets, k);
      var error := stream.WritePacket(packets[k].id, packets[k].data);
      assert [] + Frame(packets[k].id, packets[k].data) == Frame(packets[k].id, packets[k].data);
    }
    WireEnd(packets);
  }

  lemma WireStep(packets: seq<Packet>, k: nat)
    requires k < |packets|
    ensures Wire(packets[k..]) == Frame(packets[k].id, packets[k].data) + Wire(packets[k + 1..])
  {
    assert packets[k..][1..] == packets[k + 1..];
  }

  lemma WireEnd(packets: seq<Packet>)
    ensures Wire(packets[|packets|..]) == []
  {
  }

  /** Reading as many packets as were sent gives them back in order and leaves what follows. */
  method ReceiveAll(stream: ConnectionStream, ghost packets: seq<Packet>, ghost rest: seq<Byte>, count: nat)
    returns (received: seq<Packet>)
    requires stream.Valid() && stream.Reliable() && stream.Pending() == Wire(packets) + rest && count == |packets|
    requires forall k :: 0 <= k < |packets| ==> Sendable(packets[k])
    modifies stream
    ensures received == packets && stream.Valid() && stream.Pending() == rest
  {
    hide ParsePacket, Wire, ConnectionStream.Reliable, ConnectionStream.Pending, Sendable;
    received := [];
    assert packets[0..] == packets;
    for k := 0 to count
      invariant stream.Valid() && stream.Reliable()
      invariant received == packets[..k] && stream.Pending() == Wire(packets[k..]) + rest
    {
      assert packets[k..][1..] == packets[k + 1..];
      FirstOnWire(packets[k..], rest);
      var p := stream.ReadPacket();
      received := received + [p];
    }
    WireEnd(packets);
    assert [] + rest == rest;
  }

  /** However the bytes are cut into pieces on their way, the packets sent are the packets received. */
  method Exchange(packets: seq<Packet>, writePlan: seq<Event>, readPlan: seq<Event>) returns (received: seq<Packet>)
    requires forall k :: 0 <= k < |packets| ==> Sendable(packets[k])
    requires forall k :: 0 <= k < |writePlan| ==> !writePlan[k].Broken?
    requires forall k :: 0 <= k < |readPlan| ==> !readPlan[k].Broken?
    ensures received == packets
  {
    hide Wire, Sendable;
    var output := new ConnectionStream.Socket([], [], writePlan);
    SendAll(output, packets);
    var input := new ConnectionStream.Socket(output.sent, readPlan, []);
    assert [] + Wire(packets) == Wire(packets) && Wire(packets) + [] == Wire(packets);
    received := ReceiveAll(input, packets, [], |packets|);
  }

  /** The same over web socket messages, wherever they begin and end. */
  method ExchangeMessages(packets: seq<Packet>, messages: seq<Received>) returns (received: seq<Packet>)
    requires forall k :: 0 <= k < |packets| ==> Sendable(packets[k])
    requires forall k :: 0 <= k < |messages| ==> messages[k].Message?
    requires Flatten(messages) == Wire(packets)
    ensures received == packets
  {
    hide Wire, Flatten, Sendable;
    var input := new ConnectionStream.WebSocket(messages, []);
    assert Wire(packets) + [] == Wire(packets);
    received := ReceiveAll(input, packets, [], |packets|);
  }

  /**
   Garbage in front of the packets is skipped when the matcher finds no header in it and comes out of it
   with a count of zero.
   */
  method ReceiveAfterGarbage(stream: ConnectionStream, ghost garbage: seq<Byte>, ghost packets: seq<Packet>,
                             ghost rest: seq<Byte>, count: nat)
    returns (received: seq<Packet>)
    requires stream.Valid() && stream.Reliable() && stream.Pending() == garbage + Wire(packets) + rest
    requires HeaderEnd(garbage, 0).None? && CountAfter(garbage, 0) == 0
    requires count == |packets| > 0 && forall k :: 0 <= k < |packets| ==> Sendable(packets[k])
    modifies stream
    ensures received == packets && stream.Valid() && stream.Pending() == rest
  {
    hide ParsePacket, Wire, ConnectionStream.Reliable, ConnectionStream.Pending, HeaderEnd, CountAfter, Frame;
    FirstAfterGarbage(garbage, packets, rest);
    var first := stream.ReadPacket();
    var others := ReceiveAll(stream, packets[1..], rest, count - 1);
    received := [first] + others;
  }

  lemma FirstAfterGarbage(garbage: seq<Byte>, packets: seq<Packet>, rest: seq<Byte>)
    requires HeaderEnd(garbage, 0).None? && CountAfter(garbage, 0) == 0
    requires packets != [] && Sendable(packets[0])
    ensures ParsePacket(garbage + Wire(packets) + rest) == Got(packets[0], Wire(packets[1..]) + rest)
  {
    hide ParsePacket, HeaderEnd, CountAfter, Frame;
    var p, more := packets[0], Wire(packets[1..]) + rest;
    FrameAfterGarbage(garbage, p.id, p.data, more);
    assert garbage + Wire(packets) + rest == garbage + Frame(p.id, p.data) + more;
  }
}
