/**
 The envelope around encrypted packets and strings: fixed buffers, initialisation vector, salt, tag
 and timestamp (common/src/utils/CryptUtils.cpp).  The cipher itself is a parameter.
 */
module CryptEnvelope {
  import opened Options
  import opened Bytes
  import opened Hex

  const IV_SIZE := 16
  const SALT_SIZE := 16
  const GCM_TAG_SIZE := 16
  const CRYPT_BUFFER_SIZE := 2048
  const CRYPT_PACKET_TIMEOUT := 120000

  /**
   An authenticated stream cipher as GCM builds it: a key made from password and salt, encryption and
   decryption byte for byte, and a tag computed from the encrypted bytes.
   */
  datatype Cipher = Cipher(
    derive: (string, seq<Byte>) -> seq<Byte>,
    crypt: (seq<Byte>, seq<Byte>, seq<Byte>) -> seq<Byte>,
    uncrypt: (seq<Byte>, seq<Byte>, seq<Byte>) -> seq<Byte>,
    tag: (seq<Byte>, seq<Byte>, seq<Byte>) -> seq<Byte>)
  {
    ghost predicate Lawful() {
      && (forall key, iv, data :: |crypt(key, iv, data)| == |data| && uncrypt(key, iv, crypt(key, iv, data)) == data)
      && (forall key, iv, data :: |uncrypt(key, iv, data)| == |data| && crypt(key, iv, uncrypt(key, iv, data)) == data)
      && (forall key, iv, data :: |tag(key, iv, data)| == GCM_TAG_SIZE)
    }
  }

  // ---- the bytes of an envelope ----

  function Envelope(c: Cipher, pwd: string, iv: seq<Byte>, salt: seq<Byte>, plain: seq<Byte>): seq<Byte> {
    var key := c.derive(pwd, salt);
    var sealed := c.crypt(key, iv, plain);
    iv + salt + sealed + c.tag(key, iv, sealed)
  }

  /** The content of an envelope, when its tag is right. */
  function Open(c: Cipher, pwd: string, b: seq<Byte>): Option<seq<Byte>> {
    if |b| < IV_SIZE + SALT_SIZE + GCM_TAG_SIZE then None else
      var iv, salt := b[..IV_SIZE], b[IV_SIZE..IV_SIZE + SALT_SIZE];
      var sealed, tag := b[IV_SIZE + SALT_SIZE..|b| - GCM_TAG_SIZE], b[|b| - GCM_TAG_SIZE..];
      var key := c.derive(pwd, salt);
      if c.tag(key, iv, sealed) == tag then Some(c.uncrypt(key, iv, sealed)) else None
  }

  lemma EnvelopeLength(c: Cipher, pwd: string, iv: seq<Byte>, salt: seq<Byte>, plain: seq<Byte>)
    requires c.Lawful() && |iv| == IV_SIZE && |salt| == SALT_SIZE
    ensures |Envelope(c, pwd, iv, salt, plain)| == |plain| + 48
  {
  }

  lemma OpenEnvelope(c: Cipher, pwd: string, iv: seq<Byte>, salt: seq<Byte>, plain: seq<Byte>)
    requires c.Lawful() && |iv| == IV_SIZE && |salt| == SALT_SIZE
    ensures Open(c, pwd, Envelope(c, pwd, iv, salt, plain)) == Some(plain)
  {
    var key := c.derive(pwd, salt);
    var sealed := c.crypt(key, iv, plain);
    var tag := c.tag(key, iv, sealed);
    var b := iv + salt + sealed + tag;
    assert b[..16] == iv && b[16..32] == salt;
    assert b[32..|b| - 16] == sealed && b[|b| - 16..] == tag;
  }

  /** What opens with a password equals an envelope of its content under that password. */
  lemma OpenedIsEnvelope(c: Cipher, pwd: string, b: seq<Byte>)
    requires c.Lawful() && Open(c, pwd, b).Some?
    ensures |b| >= 48 && b == Envelope(c, pwd, b[..16], b[16..32], Open(c, pwd, b).value)
  {
    var sealed := b[32..|b| - 16];
    assert b == b[..16] + b[16..32] + sealed + b[|b| - 16..];
  }

  // ---- buffers ----

  /** The bytes of data are written to dst from position at on. */
  method CopyInto(dst: array<Byte>, at: nat, data: seq<Byte>)
    requires at + |data| <= dst.Length
    modifies dst
    ensures dst[..] == old(dst[..at]) + data + old(dst[at + |data|..])
  {
    for k := 0 to |data|
      invariant forall i :: 0 <= i < k ==> dst[at + i] == data[i]
      invariant forall i :: 0 <= i < dst.Length && (i < at || at + k <= i) ==> dst[i] == old(dst[i])
    {
      dst[at + k] := data[k];
    }
  }

  /** Writes the envelope to dst; nothing when dst is too small. */
  method EncryptAES(c: Cipher, src: seq<Byte>, dst: array<Byte>, pwd: string, iv: seq<Byte>, salt: seq<Byte>)
    returns (len: nat)
    requires c.Lawful() && |iv| == IV_SIZE && |salt| == SALT_SIZE
    modifies dst
    ensures len == if dst.Length < |src| + 48 then 0 else |src| + 48
    ensures len == 0 ==> dst[..] == old(dst[..])
    ensures len > 0 ==> dst[..] == Envelope(c, pwd, iv, salt, src) + old(dst[|src| + 48..])
  {
    if dst.Length < |src| + SALT_SIZE + IV_SIZE + GCM_TAG_SIZE {
      return 0;
    }
    ghost var rest := dst[|src| + 48..];
    var key := c.derive(pwd, salt);
    var sealed := c.crypt(key, iv, src);
    var tag := c.tag(key, iv, sealed);
    CopyInto(dst, 0, iv);
    assert dst[..16] == iv && dst[|src| + 48..] == rest;
    CopyInto(dst, IV_SIZE, salt);
    assert dst[..32] == iv + salt && dst[|src| + 48..] == rest;
    CopyInto(dst, IV_SIZE + SALT_SIZE, sealed);
    assert dst[..32 + |sealed|] == iv + salt + sealed && dst[|src| + 48..] == rest;
    CopyInto(dst, IV_SIZE + SALT_SIZE + |sealed|, tag);
    return IV_SIZE + SALT_SIZE + |sealed| + GCM_TAG_SIZE;
  }

  /** Writes what it decrypts before it looks at the tag; the length is 0 when the tag is wrong. */
  method DecryptAES(c: Cipher, src: seq<Byte>, dst: array<Byte>, pwd: string) returns (len: nat)
    requires c.Lawful()
    modifies dst
    ensures len == if |src| < 48 || dst.Length < |src| - 48 || Open(c, pwd, src).None? then 0 else |src| - 48
    ensures |src| >= 48 && dst.Length >= |src| - 48 && Open(c, pwd, src).Some? ==> dst[..len] == Open(c, pwd, src).value
    ensures if |src| < 48 || dst.Length < |src| - 48 then dst[..] == old(dst[..])
            else dst[|src| - 48..] == old(dst[|src| - 48..])
  {
    if |src| < IV_SIZE + SALT_SIZE + GCM_TAG_SIZE || dst.Length < |src| - IV_SIZE - SALT_SIZE - GCM_TAG_SIZE {
      return 0;
    }
    var iv, salt := src[..IV_SIZE], src[IV_SIZE..IV_SIZE + SALT_SIZE];
    var key := c.derive(pwd, salt);
    var sealed := src[IV_SIZE + SALT_SIZE..|src| - GCM_TAG_SIZE];
    CopyInto(dst, 0, c.uncrypt(key, iv, sealed));
    if c.tag(key, iv, sealed) != src[|src| - GCM_TAG_SIZE..] {
      return 0;
    }
    return |sealed|;
  }

  // ---- the timestamp ----

  const INT64_MIN := -0x8000_0000_0000_0000
  const INT64_MAX := 0x7FFF_FFFF_FFFF_FFFF

  type Int64 = t: int | INT64_MIN <= t <= INT64_MAX

  function BigEndian(v: nat, n: nat): (b: seq<Byte>)
    ensures |b| == n
  {
    if n == 0 then [] else BigEndian(v / 256, n - 1) + [v % 256]
  }

  function FromBigEndian(b: seq<Byte>): nat {
    if b == [] then 0 else FromBigEndian(b[..|b| - 1]) * 256 + b[|b| - 1]
  }

  function Pow256(n: nat): nat {
    if n == 0 then 1 else 256 * Pow256(n - 1)
  }

  lemma {:induction false} BigEndianReadBack(v: nat, n: nat)
    requires v < Pow256(n)
    ensures FromBigEndian(BigEndian(v, n)) == v
  {
    if n > 0 {
      BigEndianReadBack(v / 256, n - 1);
      assert BigEndian(v, n)[..n - 1] == BigEndian(v / 256, n - 1);
    }
  }

  lemma EightBytes()
    ensures Pow256(8) == UINT64
  {
    var p := Pow256(4);
    assert p == 0x1_0000_0000;
    assert Pow256(6) == 0x1_0000 * p;
  }

  /** The 64 bits of a two's complement number. */
  function Unsigned(t: Int64): (v: nat)
    ensures v < UINT64
  {
    if t < 0 then t + UINT64 else t
  }

  /** The number whose 64 bits are those of v. */
  function Wrap(v: int): Int64 {
    var u := v % UINT64;
    if u > INT64_MAX then u - UINT64 else u
  }

  function Stamp(t: Int64): (b: seq<Byte>)
    ensures |b| == 8
  {
    BigEndian(Unsigned(t), 8)
  }

  function ReadStamp(b: seq<Byte>): Int64
    requires |b| == 8
  {
    Wrap(FromBigEndian(b))
  }

  lemma StampReadBack(t: Int64)
    ensures ReadStamp(Stamp(t)) == t
  {
    hide BigEndian, FromBigEndian, Pow256;
    EightBytes();
    BigEndianReadBack(Unsigned(t), 8);
  }

  // ---- packets ----

  datatype PacketCryptResult = OK | INVALID_TIMESTAMP | PACKET_ERROR | OTHER_ERROR

  datatype CryptPacket = CryptPacket(result: PacketCryptResult, data: seq<Byte>)

  /** A packet sealed at the time now. */
  function SealPacket(c: Cipher, data: seq<Byte>, pwd: string, now: Int64, iv: seq<Byte>, salt: seq<Byte>):
    CryptPacket
  {
    if |data| > CRYPT_BUFFER_SIZE - 56 then CryptPacket(OTHER_ERROR, [])
    else CryptPacket(OK, Envelope(c, pwd, iv, salt, Stamp(now) + data))
  }

  predicate Fresh(now: Int64, stamp: Int64) {
    -CRYPT_PACKET_TIMEOUT <= Wrap(now - stamp) <= CRYPT_PACKET_TIMEOUT
  }

  /** What a receiver with the clock at now makes of the bytes. */
  function OpenPacket(c: Cipher, b: seq<Byte>, pwd: string, now: Int64): CryptPacket {
    if |b| > CRYPT_BUFFER_SIZE then CryptPacket(OTHER_ERROR, []) else
      var plain := Open(c, pwd, b);
      if plain.None? || |plain.value| <= 8 then CryptPacket(OTHER_ERROR, [])
      else if !Fresh(now, ReadStamp(plain.value[..8])) then CryptPacket(INVALID_TIMESTAMP, [])
      else CryptPacket(OK, plain.value[8..])
  }

  method EncryptAESPacket(c: Cipher, data: seq<Byte>, pwd: string, now: Int64, iv: seq<Byte>, salt: seq<Byte>)
    returns (r: CryptPacket)
    requires c.Lawful() && |iv| == IV_SIZE && |salt| == SALT_SIZE
    ensures r == SealPacket(c, data, pwd, now, iv, salt)
  {
    hide Envelope, Stamp, Cipher.Lawful;
    if |data| > CRYPT_BUFFER_SIZE {
      return CryptPacket(OTHER_ERROR, []);
    }
    var dataBuf := new Byte[|data| + 8](_ => 0);
    CopyInto(dataBuf, 0, Stamp(now));
    assert dataBuf[..8] == Stamp(now);
    CopyInto(dataBuf, 8, data);
    assert dataBuf[..] == Stamp(now) + data;
    var encBuffer := new Byte[CRYPT_BUFFER_SIZE](_ => 0);
    var encLen := EncryptAES(c, dataBuf[..], encBuffer, pwd, iv, salt);
    if encLen <= 8 {
      return CryptPacket(OTHER_ERROR, []);
    }
    EnvelopeLength(c, pwd, iv, salt, dataBuf[..]);
    r := CryptPacket(OK, encBuffer[..encLen]);
  }

  method DecryptAESPacket(c: Cipher, data: seq<Byte>, pwd: string, now: Int64) returns (r: CryptPacket)
    requires c.Lawful()
    ensures r == OpenPacket(c, data, pwd, now)
  {
    hide Open, ReadStamp, Wrap, Cipher.Lawful;
    if |data| > CRYPT_BUFFER_SIZE {
      return CryptPacket(OTHER_ERROR, []);
    }
    OpenedLength(c, pwd, data);
    var decBuffer := new Byte[CRYPT_BUFFER_SIZE](_ => 0);
    var decLen := DecryptAES(c, data, decBuffer, pwd);
    if decLen <= 8 {
      return CryptPacket(OTHER_ERROR, []);
    }
    ghost var plain := Open(c, pwd, data).value;
    assert decBuffer[..8] == plain[..8] && decBuffer[8..decLen] == plain[8..];
    var timestamp := ReadStamp(decBuffer[..8]);
    var timeDiff := Wrap(now - timestamp);
    if timeDiff < -CRYPT_PACKET_TIMEOUT || timeDiff > CRYPT_PACKET_TIMEOUT {
      return CryptPacket(INVALID_TIMESTAMP, []);
    }
    r := CryptPacket(OK, decBuffer[8..decLen]);
  }

  lemma OpenedLength(c: Cipher, pwd: string, b: seq<Byte>)
    requires c.Lawful()
    ensures Open(c, pwd, b).Some? ==> |b| >= 48 && |Open(c, pwd, b).value| == |b| - 48
  {
  }

  /** A packet comes back exactly when it carries 1 to 1992 bytes and the clocks differ by two minutes at most. */
  lemma PacketRoundTrip(c: Cipher, data: seq<Byte>, pwd: string, sent: Int64, received: Int64,
                        iv: seq<Byte>, salt: seq<Byte>)
    requires c.Lawful() && |iv| == IV_SIZE && |salt| == SALT_SIZE
    ensures var s := SealPacket(c, data, pwd, sent, iv, salt);
            s.result.OK? && OpenPacket(c, s.data, pwd, received) == CryptPacket(OK, data)
            <==> 1 <= |data| <= 1992 && Fresh(received, sent)
  {
    hide Envelope, Open, Stamp, ReadStamp, Cipher.Lawful, Wrap;
    var plain := Stamp(sent) + data;
    EnvelopeLength(c, pwd, iv, salt, plain);
    OpenEnvelope(c, pwd, iv, salt, plain);
    StampReadBack(sent);
    assert plain[..8] == Stamp(sent) && plain[8..] == data;
  }

  /** Packets are sealed up to 1992 bytes, and longer bytes than 2048 are not looked at. */
  lemma PacketLimits(c: Cipher, data: seq<Byte>, pwd: string, now: Int64, iv: seq<Byte>, salt: seq<Byte>)
    ensures SealPacket(c, data, pwd, now, iv, salt).result.OK? <==> |data| <= 1992
    ensures !SealPacket(c, data, pwd, now, iv, salt).result.OK? ==>
              SealPacket(c, data, pwd, now, iv, salt) == CryptPacket(OTHER_ERROR, [])
    ensures |data| > 2048 ==> OpenPacket(c, data, pwd, now) == CryptPacket(OTHER_ERROR, [])
  {
    hide Envelope, Stamp, Open;
  }

  /** A packet that was sealed too long ago, or in the future, is told from one that does not open. */
  lemma StaleIsTold(c: Cipher, data: seq<Byte>, pwd: string, sent: Int64, received: Int64,
                    iv: seq<Byte>, salt: seq<Byte>)
    requires c.Lawful() && |iv| == IV_SIZE && |salt| == SALT_SIZE && 1 <= |data| <= 1992 && !Fresh(received, sent)
    ensures OpenPacket(c, SealPacket(c, data, pwd, sent, iv, salt).data, pwd, received)
         == CryptPacket(INVALID_TIMESTAMP, [])
  {
    hide Envelope, Open, Stamp, ReadStamp, Cipher.Lawful, Wrap;
    var plain := Stamp(sent) + data;
    EnvelopeLength(c, pwd, iv, salt, plain);
    OpenEnvelope(c, pwd, iv, salt, plain);
    StampReadBack(sent);
    assert plain[..8] == Stamp(sent) && plain[8..] == data;
  }

  /** For clocks after 1970 the difference does not wrap. */
  lemma FreshIsTwoMinutes(now: Int64, stamp: Int64)
    requires 0 <= now && 0 <= stamp
    ensures Fresh(now, stamp) <==> -120000 <= now - stamp <= 120000
  {
    if now >= stamp {
      assert (now - stamp) % UINT64 == now - stamp;
    } else {
      assert (now - stamp) % UINT64 == now - stamp + UINT64;
    }
  }

  lemma {:induction false} FromBigEndianBound(b: seq<Byte>)
    ensures FromBigEndian(b) < Pow256(|b|) && BigEndian(FromBigEndian(b), |b|) == b
  {
    if b != [] {
      FromBigEndianBound(b[..|b| - 1]);
      assert b == b[..|b| - 1] + [b[|b| - 1]];
    }
  }

  lemma StampWriteBack(b: seq<Byte>)
    requires |b| == 8
    ensures Stamp(ReadStamp(b)) == b
  {
    hide BigEndian, FromBigEndian, Pow256;
    EightBytes();
    FromBigEndianBound(b);
    assert FromBigEndian(b) % UINT64 == FromBigEndian(b);
  }

  /** What is accepted equals a packet sealed with the password at a time at most two minutes away. */
  lemma AcceptedWasSealed(c: Cipher, b: seq<Byte>, pwd: string, now: Int64) returns (sent: Int64)
    requires c.Lawful() && OpenPacket(c, b, pwd, now).result.OK?
    ensures |b| >= 48 && Fresh(now, sent)
    ensures SealPacket(c, OpenPacket(c, b, pwd, now).data, pwd, sent, b[..16], b[16..32]) == CryptPacket(OK, b)
  {
    hide Envelope, Open, Stamp, ReadStamp, Cipher.Lawful, Wrap;
    var plain := Open(c, pwd, b).value;
    OpenedLength(c, pwd, b);
    OpenedIsEnvelope(c, pwd, b);
    sent := ReadStamp(plain[..8]);
    StampWriteBack(plain[..8]);
    assert plain == plain[..8] + plain[8..];
  }

  /** What is told to be stale equals a packet sealed under the password with a time outside the limit. */
  lemma StaleWasSealed(c: Cipher, b: seq<Byte>, pwd: string, now: Int64) returns (sent: Int64, data: seq<Byte>)
    requires c.Lawful() && OpenPacket(c, b, pwd, now).result.INVALID_TIMESTAMP?
    ensures |b| >= 48 && !Fresh(now, sent)
    ensures SealPacket(c, data, pwd, sent, b[..16], b[16..32]) == CryptPacket(OK, b)
  {
    hide Envelope, Open, Stamp, ReadStamp, Cipher.Lawful, Wrap;
    var plain := Open(c, pwd, b).value;
    OpenedLength(c, pwd, b);
    OpenedIsEnvelope(c, pwd, b);
    sent, data := ReadStamp(plain[..8]), plain[8..];
    StampWriteBack(plain[..8]);
    assert plain == plain[..8] + plain[8..];
  }

  // ---- strings ----

  function SealString(c: Cipher, data: seq<Byte>, pwd: string, iv: seq<Byte>, salt: seq<Byte>): Option<string> {
    if |data| > CRYPT_BUFFER_SIZE - 48 then None else Some(ToHexString(Envelope(c, pwd, iv, salt, data)))
  }

  function OpenString(c: Cipher, hex: string, pwd: string): Option<seq<Byte>> {
    if |hex| > CRYPT_BUFFER_SIZE then None else
      var plain := Open(c, pwd, FromHexString(hex));
      if plain.None? || plain.value == [] then None else plain
  }

  /** Strings are sealed up to 2000 bytes. */
  lemma StringLimit(c: Cipher, data: seq<Byte>, pwd: string, iv: seq<Byte>, salt: seq<Byte>)
    ensures SealString(c, data, pwd, iv, salt).Some? <==> |data| <= 2000
  {
    hide Envelope, ToHexString;
  }

  method EncryptString(c: Cipher, data: seq<Byte>, pwd: string, iv: seq<Byte>, salt: seq<Byte>)
    returns (r: Option<string>)
    requires c.Lawful() && |iv| == IV_SIZE && |salt| == SALT_SIZE
    ensures r == SealString(c, data, pwd, iv, salt)
  {
    hide Envelope, Cipher.Lawful, ToHexString;
    if |data| > CRYPT_BUFFER_SIZE {
      return None;
    }
    var encBuffer := new Byte[CRYPT_BUFFER_SIZE](_ => 0);
    var encLen := EncryptAES(c, data, encBuffer, pwd, iv, salt);
    if encLen <= 0 {
      return None;
    }
    EnvelopeLength(c, pwd, iv, salt, data);
    assert encBuffer[..encLen] == Envelope(c, pwd, iv, salt, data);
    r := Some(ToHexString(encBuffer[..encLen]));
  }

  method DecryptString(c: Cipher, data: string, pwd: string) returns (r: Option<seq<Byte>>)
    requires c.Lawful()
    ensures r == OpenString(c, data, pwd)
  {
    hide Cipher.Lawful, FromHexString;
    if |data| > CRYPT_BUFFER_SIZE {
      return None;
    }
    var decVec := FromHexString(data);
    if decVec == [] {
      return None;
    }
    HexIsShorter(data);
    OpenedLength(c, pwd, decVec);
    hide Open;
    var decBuffer := new Byte[CRYPT_BUFFER_SIZE](_ => 0);
    var decLen := DecryptAES(c, decVec, decBuffer, pwd);
    if decLen <= 0 {
      return None;
    }
    r := Some(decBuffer[..decLen]);
  }

  lemma HexIsShorter(s: string)
    ensures 2 * |FromHexString(s)| <= |s|
  {
    if Unhex(s).Some? {
      HexWriteBack(s);
    }
  }

  /** A string comes back exactly when it has 1 to 976 bytes. */
  lemma StringRoundTrip(c: Cipher, data: seq<Byte>, pwd: string, iv: seq<Byte>, salt: seq<Byte>)
    requires c.Lawful() && |iv| == IV_SIZE && |salt| == SALT_SIZE
    ensures var s := SealString(c, data, pwd, iv, salt);
            s.Some? && OpenString(c, s.value, pwd) == Some(data) <==> 1 <= |data| <= 976
  {
    hide Envelope, Open, Cipher.Lawful, ToHexString, Unhex;
    EnvelopeLength(c, pwd, iv, salt, data);
    OpenEnvelope(c, pwd, iv, salt, data);
    HexReadBack(Envelope(c, pwd, iv, salt, data));
  }
}
