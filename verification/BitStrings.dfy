/**
 Strings of bits, most significant bit first: the BitBuffer of deps/qrcodegen.cpp and the two
 conversions between bits and bytes.
 */
module BitStrings {
  import opened Bytes

  type Bits = seq<bool>

  /** The len low bits of v. */
  function ToBits(v: nat, len: nat): (b: Bits)
    ensures |b| == len
  {
    if len == 0 then [] else ToBits(v / 2, len - 1) + [v % 2 == 1]
  }

  function FromBits(b: Bits): (v: nat)
    ensures v < Pow2(|b|)
  {
    if b == [] then 0 else 2 * FromBits(b[..|b| - 1]) + (if b[|b| - 1] then 1 else 0)
  }

  lemma {:induction false} FromToBits(v: nat, len: nat)
    requires v < Pow2(len)
    ensures FromBits(ToBits(v, len)) == v
  {
    if len > 0 {
      FromToBits(v / 2, len - 1);
      assert ToBits(v, len)[..len - 1] == ToBits(v / 2, len - 1);
    }
  }

  lemma {:induction false} ToFromBits(b: Bits)
    ensures ToBits(FromBits(b), |b|) == b
  {
    hide Pow2;
    if b != [] {
      var k := |b| - 1;
      ToFromBits(b[..k]);
      HalfOf(if b[k] then 1 else 0, FromBits(b[..k]));
      assert b == b[..k] + [b[k]];
    }
  }

  lemma {:induction false} BitOfToBits(v: nat, len: nat, k: nat)
    requires k < len
    ensures ToBits(v, len)[k] == Bit(v, len - 1 - k)
  {
    if k < len - 1 {
      BitOfToBits(v / 2, len - 1, k);
    }
  }

  class BitBuffer {
    var bits: Bits

    constructor ()
      ensures bits == []
    {
      bits := [];
    }

    /** A value that does not fit in len bits, or a length the program does not allow, is refused. */
    method AppendBits(val: nat, len: int) returns (ok: bool)
      modifies this
      ensures ok <==> 0 <= len <= 31 && val < Pow2(len)
      ensures bits == old(bits) + if ok then ToBits(val, len) else []
    {
      if len < 0 || len > 31 || ShiftRight(val, len) != 0 {
        if 0 <= len && val < Pow2(len) { ShiftRightBelow(val, len, 0); }
        return false;
      }
      ShiftedAway(val, len);
      var i := len - 1;
      while i >= 0
        invariant -1 <= i < len
        invariant bits == old(bits) + ToBits(ShiftRight(val, i + 1), len - 1 - i)
      {
        ShiftRightOnce(val, i);
        bits := bits + [ShiftRight(val, i) % 2 != 0];
        i := i - 1;
      }
      return true;
    }
  }

  lemma {:induction false} ShiftedAway(v: nat, k: nat)
    requires ShiftRight(v, k) == 0
    ensures v < Pow2(k)
    ensures ToBits(ShiftRight(v, k), 0) == []
  {
    if k > 0 { ShiftedAway(v / 2, k - 1); }
  }

  // ---- bytes ----

  function Unpack(bytes: seq<Byte>): (b: Bits)
    ensures |b| == 8 * |bytes|
  {
    if bytes == [] then [] else ToBits(bytes[0], 8) + Unpack(bytes[1..])
  }

  lemma EightBits(b: Bits)
    requires |b| == 8
    ensures FromBits(b) < 256
  {
    assert Pow2(8) == 256;
  }

  function Pack(b: Bits): (bytes: seq<Byte>)
    requires |b| % 8 == 0
    ensures |bytes| == |b| / 8
  {
    if b == [] then [] else
      EightBits(b[..8]);
      [FromBits(b[..8])] + Pack(b[8..])
  }

  lemma {:induction false} UnpackPack(b: Bits)
    requires |b| % 8 == 0
    ensures Unpack(Pack(b)) == b
  {
    if b != [] {
      UnpackPack(b[8..]);
      ToFromBits(b[..8]);
      assert b == b[..8] + b[8..];
      assert Pack(b)[1..] == Pack(b[8..]);
    }
  }

  lemma {:induction false} PackUnpack(bytes: seq<Byte>)
    ensures Pack(Unpack(bytes)) == bytes
  {
    if bytes != [] {
      PackUnpack(bytes[1..]);
      var b := Unpack(bytes);
      assert b[..8] == ToBits(bytes[0], 8) && b[8..] == Unpack(bytes[1..]);
      assert Pow2(8) == 256;
      FromToBits(bytes[0], 8);
    }
  }

  /** Bit k of a byte string is bit 7 - k % 8 of byte k / 8. */
  lemma {:induction false} UnpackBit(bytes: seq<Byte>, k: nat)
    requires k < 8 * |bytes|
    ensures Unpack(bytes)[k] == Bit(bytes[k / 8], 7 - k % 8)
  {
    hide ToBits, Bit;
    if k < 8 {
      BitOfToBits(bytes[0], 8, k);
    } else {
      UnpackBit(bytes[1..], k - 8);
      assert Unpack(bytes)[8..] == Unpack(bytes[1..]);
      assert (k - 8) / 8 == k / 8 - 1 && (k - 8) % 8 == k % 8;
    }
  }
}
