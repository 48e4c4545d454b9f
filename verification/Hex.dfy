/** Hexadecimal strings (ToHexString and FromHexString of common/src/utils/StringUtils.cpp). */
module Hex {
  import opened Options
  import opened Bytes

  function Digit(v: nat): char
    requires v < 16
  {
    if v < 10 then ('0' as int + v) as char else ('A' as int + v - 10) as char
  }

  function Value(c: char): Option<nat> {
    if '0' <= c <= '9' then Some(c as int - '0' as int)
    else if 'A' <= c <= 'F' then Some(c as int - 'A' as int + 10)
    else if 'a' <= c <= 'f' then Some(c as int - 'a' as int + 10)
    else None
  }

  function ToHexString(data: seq<Byte>): (s: string)
    ensures |s| == 2 * |data|
  {
    if data == [] then "" else [Digit(data[0] / 16), Digit(data[0] % 16)] + ToHexString(data[1..])
  }

  function Unhex(s: string): Option<seq<Byte>>
    decreases |s|
  {
    if s == "" then Some([])
    else if |s| == 1 then None
    else
      var hi, lo, rest := Value(s[0]), Value(s[1]), Unhex(s[2..]);
      if hi.None? || lo.None? || rest.None? then None
      else
        ValueIsSmall(s[0]);
        ValueIsSmall(s[1]);
        Some([hi.value * 16 + lo.value] + rest.value)
  }

  lemma ValueIsSmall(c: char)
    ensures Value(c).Some? ==> Value(c).value < 16
  {
  }

  /** Any error makes the result empty. */
  function FromHexString(s: string): seq<Byte> {
    var r := Unhex(s);
    if r.None? then [] else r.value
  }

  lemma DigitValue(v: nat)
    requires v < 16
    ensures Value(Digit(v)) == Some(v)
  {
  }

  lemma {:induction false} HexReadBack(data: seq<Byte>)
    ensures Unhex(ToHexString(data)) == Some(data)
  {
    hide Digit, Value;
    if data != [] {
      DigitValue(data[0] / 16);
      DigitValue(data[0] % 16);
      HexReadBack(data[1..]);
      assert ToHexString(data)[2..] == ToHexString(data[1..]);
      assert data == [data[0]] + data[1..];
    }
  }

  function UpperDigit(c: char): char {
    if 'a' <= c <= 'f' then (c as int - 'a' as int + 'A' as int) as char else c
  }

  lemma DigitOfValue(c: char)
    ensures Value(c).Some? ==> Value(c).value < 16 && Digit(Value(c).value) == UpperDigit(c)
  {
  }

  /** What reads as hexadecimal is, in upper case, what the bytes read are written as. */
  lemma {:induction false} HexWriteBack(s: string)
    requires Unhex(s).Some?
    ensures |s| == 2 * |Unhex(s).value|
    ensures forall k :: 0 <= k < |s| ==> ToHexString(Unhex(s).value)[k] == UpperDigit(s[k])
    decreases |s|
  {
    hide Digit, Value, UpperDigit;
    if |s| >= 2 {
      DigitOfValue(s[0]);
      DigitOfValue(s[1]);
      HexWriteBack(s[2..]);
      var data := Unhex(s).value;
      assert data[1..] == Unhex(s[2..]).value;
      assert data[0] / 16 == Value(s[0]).value && data[0] % 16 == Value(s[1]).value;
      var rest := ToHexString(data[1..]);
      assert ToHexString(data) == [Digit(data[0] / 16), Digit(data[0] % 16)] + rest;
      forall k | 0 <= k < |s| ensures ToHexString(data)[k] == UpperDigit(s[k]) {
        if k >= 2 {
          assert s[k] == s[2..][k - 2];
        }
      }
    }
  }
}
