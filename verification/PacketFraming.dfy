/**
 Packets as bytes and back: the frame WritePacket writes and what a reader makes of a byte sequence
 (common/src/connection/BaseConnection.cpp).
 */
module PacketFraming {
  import opened Options
  import opened Bytes
  import opened Packets

  /** The bytes of PACKET_HEADER in network order. */
  function Header(): (h: seq<Byte>)
    ensures |h| == 8
  {
    [0xDB, 0x06, 0x5A, 0xC7, 0xAF, 0xDF, 0xA4, 0xCC]
  }

  /** The eight bytes in decimal, no two of them equal. */
  lemma HeaderIs()
    ensures Header() == [219, 6, 90, 199, 175, 223, 164, 204]
    ensures forall i, j :: 0 <= i < j < 8 ==> Header()[i] != Header()[j]
  {
  }

  const UINT16 := 0x1_0000

  function TwoBytes(v: nat): (b: seq<Byte>)
    ensures |b| == 2
  {
    [v / 256 % 256, v % 256]
  }

  function FromTwoBytes(b: seq<Byte>): (v: nat)
    requires |b| == 2
    ensures v < UINT16
  {
    var hi: int, lo: int := b[0], b[1];
    hi * 256 + lo
  }

  lemma Remainders(high: nat, low: nat)
    requires low < 256
    ensures (high * 256 + low) % UINT16 == high % 256 * 256 + low
  {
    assert high * 256 + low == high / 256 * UINT16 + (high % 256 * 256 + low);
  }

  lemma TwoBytesReadBack(v: nat)
    ensures FromTwoBytes(TwoBytes(v)) == v % UINT16
  {
    Remainders(v / 256, v % 256);
  }

  /** What WritePacket hands to the stream; id and length are cut to sixteen bits. */
  function Frame(id: nat, data: seq<Byte>): seq<Byte> {
    Header() + TwoBytes(id) + TwoBytes(|data| % UINT16) + data
  }

  // ---- the header matcher ----

  /** The count of matched header bytes after one more byte. */
  function Advance(k: nat, b: Byte): (n: nat)
    requires k < 8
    ensures n <= k + 1
  {
    if b == Header()[k] then k + 1 else 0
  }

  /** Where the matcher, having k bytes, completes the header. */
  function HeaderEnd(bytes: seq<Byte>, k: nat): (end: Option<nat>)
    requires k < 8
    ensures end.Some? ==> 0 < end.value <= |bytes|
    decreases |bytes|
  {
    if bytes == [] then None
    else
      var n := Advance(k, bytes[0]);
      if n == 8 then Some(1)
      else
        var rest := HeaderEnd(bytes[1..], n);
        if rest.None? then None else Some(rest.value + 1)
  }

  /** The matcher's count after bytes in which it does not complete the header. */
  function CountAfter(bytes: seq<Byte>, k: nat): (n: nat)
    requires k < 8 && HeaderEnd(bytes, k).None?
    ensures n < 8
    decreases |bytes|
  {
    if bytes == [] then k else CountAfter(bytes[1..], Advance(k, bytes[0]))
  }

  /** A count of k means that the last k bytes are the first k header bytes. */
  lemma {:induction false} CountIsHeaderPrefix(seen: seq<Byte>, k: nat, bytes: seq<Byte>)
    requires k < 8 && k <= |seen| && seen[|seen| - k..] == Header()[..k] && HeaderEnd(bytes, k).None?
    ensures var n, all := CountAfter(bytes, k), seen + bytes;
            n <= |all| && all[|all| - n..] == Header()[..n]
    decreases |bytes|
  {
    hide Header;
    if bytes == [] {
      assert seen + bytes == seen;
    } else {
      var more := seen + [bytes[0]];
      var n := Advance(k, bytes[0]);
      if n == k + 1 {
        assert more[|more| - n..] == seen[|seen| - k..] + [bytes[0]];
        assert Header()[..n] == Header()[..k] + [Header()[k]];
      }
      CountIsHeaderPrefix(more, n, bytes[1..]);
      assert more + bytes[1..] == seen + bytes;
    }
  }

  /** The header ends where the matcher says it does. */
  lemma {:induction false} HeaderStandsThere(seen: seq<Byte>, k: nat, bytes: seq<Byte>)
    requires k < 8 && k <= |seen| && seen[|seen| - k..] == Header()[..k] && HeaderEnd(bytes, k).Some?
    ensures var end, all := |seen| + HeaderEnd(bytes, k).value, seen + bytes;
            8 <= end <= |all| && all[end - 8..end] == Header()
    decreases |bytes|
  {
    hide Header;
    var more := seen + [bytes[0]];
    var n := Advance(k, bytes[0]);
    if n == k + 1 {
      assert more[|more| - n..] == seen[|seen| - k..] + [bytes[0]];
      assert Header()[..n] == Header()[..k] + [Header()[k]];
    }
    assert more + bytes[1..] == seen + bytes;
    if n == 8 {
      assert Header()[..8] == Header();
      assert (seen + bytes)[|more| - 8..|more|] == more[|more| - 8..];
    } else {
      HeaderStandsThere(more, n, bytes[1..]);
    }
  }

  lemma {:induction false} MatchInParts(a: seq<Byte>, b: seq<Byte>, k: nat)
    requires k < 8 && HeaderEnd(a, k).None?
    ensures var e := HeaderEnd(b, CountAfter(a, k));
            HeaderEnd(a + b, k) == if e.None? then None else Some(|a| + e.value)
    ensures HeaderEnd(b, CountAfter(a, k)).None? ==> CountAfter(a + b, k) == CountAfter(b, CountAfter(a, k))
    decreases |a|
  {
    hide Advance;
    if a == [] {
      assert a + b == b;
    } else {
      assert (a + b)[1..] == a[1..] + b;
      MatchInParts(a[1..], b, Advance(k, a[0]));
    }
  }

  /** More bytes after a complete header change nothing. */
  lemma {:induction false} MatchKept(a: seq<Byte>, b: seq<Byte>, k: nat)
    requires k < 8 && HeaderEnd(a, k).Some?
    ensures HeaderEnd(a + b, k) == HeaderEnd(a, k)
    decreases |a|
  {
    hide Advance;
    assert (a + b)[1..] == a[1..] + b;
    if Advance(k, a[0]) < 8 {
      MatchKept(a[1..], b, Advance(k, a[0]));
    }
  }

  /** The matcher, k bytes into the header after the bytes seen. */
  ghost predicate Matched(seen: seq<Byte>, k: nat) {
    if k == 8 then HeaderEnd(seen, 0) == Some(|seen|)
    else k < 8 && HeaderEnd(seen, 0).None? && CountAfter(seen, 0) == k
  }

  lemma MatchOneMore(seen: seq<Byte>, k: nat, b: Byte)
    requires k < 8 && Matched(seen, k)
    ensures Matched(seen + [b], Advance(k, b))
  {
    hide Advance;
    MatchInParts(seen, [b], 0);
    assert [b][1..] == [];
    assert HeaderEnd([b], k) == if Advance(k, b) == 8 then Some(1) else None;
  }

  lemma MatchedAll(seen: seq<Byte>, rest: seq<Byte>, k: nat)
    requires Matched(seen, k)
    ensures k == 8 ==> HeaderEnd(seen + rest, 0) == Some(|seen|) && (seen + rest)[|seen|..] == rest
    ensures k < 8 && rest == [] ==> HeaderEnd(seen + rest, 0) == None
  {
    if k == 8 {
      MatchKept(seen, rest, 0);
    } else {
      assert seen + [] == seen;
    }
  }

  /** From a count of k the remaining header bytes complete the header. */
  lemma {:induction false} RestOfHeader(k: nat, rest: seq<Byte>)
    requires k < 8
    ensures HeaderEnd(Header()[k..] + rest, k) == Some(8 - k)
    decreases 8 - k
  {
    hide Header;
    var bytes := Header()[k..] + rest;
    assert bytes[0] == Header()[k];
    if k < 7 {
      assert bytes[1..] == Header()[k + 1..] + rest;
      RestOfHeader(k + 1, rest);
    }
  }

  /** With a count above zero a header goes unnoticed, and the count is zero after it. */
  lemma HeaderMissed(k: nat)
    requires 0 < k < 8
    ensures HeaderEnd(Header(), k).None? && CountAfter(Header(), k) == 0
  {
    var h := Header();
    assert Advance(k, h[0]) == 0;
    SkipNonMatching(h[1..]);
  }

  lemma {:induction false} SkipNonMatching(bytes: seq<Byte>)
    requires 0xDB !in bytes
    ensures HeaderEnd(bytes, 0).None? && CountAfter(bytes, 0) == 0
    decreases |bytes|
  {
    if bytes != [] {
      SkipNonMatching(bytes[1..]);
    }
  }

  /**
   After bytes that hold no header for the matcher, the next header is recognised exactly when the
   count has come back to zero; otherwise a later one may be.
   */
  lemma HeaderAfterGarbage(garbage: seq<Byte>, rest: seq<Byte>)
    requires HeaderEnd(garbage, 0).None?
    ensures HeaderEnd(garbage + Header() + rest, 0) == Some(|garbage| + 8) <==> CountAfter(garbage, 0) == 0
  {
    var k := CountAfter(garbage, 0);
    hide Header, HeaderEnd, CountAfter;
    assert garbage + Header() + rest == garbage + (Header() + rest);
    MatchInParts(garbage, Header() + rest, 0);
    if k == 0 {
      assert Header()[0..] == Header();
      RestOfHeader(0, rest);
    } else {
      HeaderMissed(k);
      MatchInParts(Header(), rest, k);
    }
  }

  /** One byte of garbage, the first of the header, is enough to hide the header behind it. */
  lemma FirstByteHidesHeader(rest: seq<Byte>)
    ensures HeaderEnd([0xDB], 0).None? && CountAfter([0xDB], 0) == 1
    ensures HeaderEnd([0xDB] + Header() + rest, 0) != Some(9)
  {
    var b: seq<Byte> := [0xDB];
    assert b[1..] == [];
    assert Advance(0, b[0]) == 1;
    assert HeaderEnd([], 1).None? && CountAfter([], 1) == 1;
    assert HeaderEnd(b, 0).None? && CountAfter(b, 0) == 1;
    HeaderAfterGarbage(b, rest);
  }

  // ---- reading one packet ----

  /** Incomplete: the bytes end before the packet does.  Empty: it announces no data. */
  datatype Parsed = Got(packet: Packet, rest: seq<Byte>) | Empty(rest: seq<Byte>) | Incomplete

  function ParseBody(b: seq<Byte>): Parsed {
    if |b| < 4 then Incomplete
    else
      var id, length := FromTwoBytes(b[..2]), FromTwoBytes(b[2..4]);
      if length == 0 then Empty(b[4..])
      else if |b| < 4 + length then Incomplete
      else Got(Packet(NONE, id, b[4..4 + length]), b[4 + length..])
  }

  lemma ShortBody(b: seq<Byte>)
    requires |b| < 4
    ensures ParseBody(b) == Incomplete
  {
  }

  lemma BodyOf(id: seq<Byte>, length: seq<Byte>, tail: seq<Byte>)
    requires |id| == |length| == 2
    ensures var n := FromTwoBytes(length);
            ParseBody(id + (length + tail)) ==
            if n == 0 then Empty(tail)
            else if |tail| < n then Incomplete
            else Got(Packet(NONE, FromTwoBytes(id), tail[..n]), tail[n..])
  {
    hide FromTwoBytes;
    var b, n := id + (length + tail), FromTwoBytes(length);
    assert b[..2] == id && b[2..4] == length && b[4..] == tail;
    if n <= |tail| {
      assert b[4..4 + n] == tail[..n] && b[4 + n..] == tail[n..];
    }
  }

  function ParsePacket(bytes: seq<Byte>): Parsed {
    var end := HeaderEnd(bytes, 0);
    if end.None? then Incomplete else ParseBody(bytes[end.value..])
  }

  lemma BodyReadBack(id: nat, data: seq<Byte>, rest: seq<Byte>)
    requires id < UINT16
    ensures var p := ParseBody(TwoBytes(id) + TwoBytes(|data| % UINT16) + data + rest);
            p == Got(Packet(NONE, id, data), rest) <==> 1 <= |data| <= 65535
  {
    hide TwoBytes, FromTwoBytes;
    var b := TwoBytes(id) + TwoBytes(|data| % UINT16) + data + rest;
    assert b[..2] == TwoBytes(id) && b[2..4] == TwoBytes(|data| % UINT16);
    TwoBytesReadBack(id);
    TwoBytesReadBack(|data| % UINT16);
    if 1 <= |data| <= 65535 {
      assert b[4..4 + |data|] == data && b[4 + |data|..] == rest;
    }
  }

  /** A frame is read back, and nothing after it touched, exactly when it carries 1 to 65535 bytes. */
  lemma FrameReadBack(id: nat, data: seq<Byte>, rest: seq<Byte>)
    requires id < UINT16
    ensures ParsePacket(Frame(id, data) + rest) == Got(Packet(NONE, id, data), rest) <==> 1 <= |data| <= 65535
  {
    hide Header, TwoBytes, ParseBody, HeaderEnd;
    var body := TwoBytes(id) + TwoBytes(|data| % UINT16) + data + rest;
    assert Frame(id, data) + rest == Header() + body;
    assert Header()[0..] == Header();
    RestOfHeader(0, body);
    assert (Header() + body)[8..] == body;
    BodyReadBack(id, data, rest);
  }

  /** Garbage in front that leaves the matcher at zero is skipped. */
  lemma FrameAfterGarbage(garbage: seq<Byte>, id: nat, data: seq<Byte>, rest: seq<Byte>)
    requires HeaderEnd(garbage, 0).None? && CountAfter(garbage, 0) == 0 && id < UINT16
    ensures ParsePacket(garbage + Frame(id, data) + rest) == Got(Packet(NONE, id, data), rest) <==> 1 <= |data| <= 65535
  {
    hide Header, TwoBytes, ParseBody, HeaderEnd, CountAfter;
    var body := TwoBytes(id) + TwoBytes(|data| % UINT16) + data + rest;
    var bytes := garbage + Header() + body;
    assert garbage + Frame(id, data) + rest == bytes;
    HeaderAfterGarbage(garbage, body);
    assert bytes[|garbage| + 8..] == body;
    BodyReadBack(id, data, rest);
  }

  // ---- many packets ----

  predicate Sendable(p: Packet) {
    p.error == NONE && p.id < UINT16 && 1 <= |p.data| <= 65535
  }

  /** The bytes of packets sent one after the other. */
  function Wire(packets: seq<Packet>): seq<Byte> {
    if packets == [] then [] else Frame(packets[0].id, packets[0].data) + Wire(packets[1..])
  }

  lemma FirstOnWire(packets: seq<Packet>, rest: seq<Byte>)
    requires packets != [] && Sendable(packets[0])
    ensures ParsePacket(Wire(packets) + rest) == Got(packets[0], Wire(packets[1..]) + rest)
  {
    hide Frame, ParsePacket;
    var p := packets[0];
    FrameReadBack(p.id, p.data, Wire(packets[1..]) + rest);
    assert Wire(packets) + rest == Frame(p.id, p.data) + (Wire(packets[1..]) + rest);
  }
}
