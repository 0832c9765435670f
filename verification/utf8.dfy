/**
 UTF-8 encoding of the optional directory and subvolume strings
 (`str.encode('utf-8')`). A Dafny `char` is a Unicode scalar value, so
 every string is encodable; Python strings holding lone surrogates, which
 make `encode` raise, have no counterpart here.
 */
module Utf8 {
  import opened Bytes

  /** The bytes of one scalar value: 1 byte below U+0080, 2 below U+0800,
      3 below U+10000, 4 otherwise. */
  function EncodeChar(c: char): (bs: seq<byte>)
    ensures 1 <= |bs| <= 4
    ensures |bs| == LeadLength(bs[0])
    ensures forall k :: 1 <= k < |bs| ==> 0x80 <= bs[k] < 0xC0
    ensures bs[0] == 0 <==> c == '\0'
  {
    var cp := c as int;
    if cp < 0x80 then [cp]
    else if cp < 0x800 then [0xC0 + cp / 0x40, 0x80 + cp % 0x40]
    else if cp < 0x1_0000 then [0xE0 + cp / 0x1000, 0x80 + (cp / 0x40) % 0x40, 0x80 + cp % 0x40]
    else [0xF0 + cp / 0x4_0000, 0x80 + (cp / 0x1000) % 0x40, 0x80 + (cp / 0x40) % 0x40, 0x80 + cp % 0x40]
  }

  /** `s.encode('utf-8')`: the encodings of the characters, in order. */
  function Encode(s: string): (bs: seq<byte>)
    ensures |s| <= |bs| <= 4 * |s|
    ensures |bs| == 0 <==> |s| == 0
  {
    if |s| == 0 then [] else EncodeChar(s[0]) + Encode(s[1..])
  }

  /** Number of bytes of the sequence a lead byte starts. */
  function LeadLength(lead: byte): nat
  {
    if lead < 0x80 then 1 else if lead < 0xE0 then 2 else if lead < 0xF0 then 3 else 4
  }

  /** The scalar value of one encoded sequence. */
  function DecodeScalar(bs: seq<byte>): int
    requires 1 <= |bs| <= 4
  {
    if |bs| == 1 then bs[0] as int
    else if |bs| == 2 then (bs[0] as int - 0xC0) * 0x40 + (bs[1] as int - 0x80)
    else if |bs| == 3 then (bs[0] as int - 0xE0) * 0x1000 + (bs[1] as int - 0x80) * 0x40 + (bs[2] as int - 0x80)
    else (bs[0] as int - 0xF0) * 0x4_0000 + (bs[1] as int - 0x80) * 0x1000 + (bs[2] as int - 0x80) * 0x40 + (bs[3] as int - 0x80)
  }

  /** Splits a byte string into scalar values by lead byte; a truncated
      final sequence is dropped. */
  function Decode(bs: seq<byte>): seq<int>
    decreases |bs|
  {
    if |bs| == 0 then []
    else
      var n := LeadLength(bs[0]);
      if n > |bs| then [] else [DecodeScalar(bs[..n])] + Decode(bs[n..])
  }

  /** The scalar values of a string. */
  function ScalarValues(s: string): (cps: seq<int>)
    ensures |cps| == |s|
  {
    if |s| == 0 then [] else [s[0] as int] + ScalarValues(s[1..])
  }

  lemma DecodeEncodeChar(c: char)
    ensures DecodeScalar(EncodeChar(c)) == c as int
  {
    var cp := c as int;
    if 0x80 <= cp < 0x800 {
      DigitSplit(cp);
    } else if 0x800 <= cp < 0x1_0000 {
      ThreeDigits(cp);
    } else if 0x1_0000 <= cp {
      FourDigits(cp);
    }
  }

  /** Base-64 digit split. */
  lemma DigitSplit(x: nat)
    ensures x == (x / 0x40) * 0x40 + x % 0x40
  {
  }

  lemma ThreeDigits(cp: nat)
    ensures (cp / 0x1000) * 0x1000 + ((cp / 0x40) % 0x40) * 0x40 + cp % 0x40 == cp
  {
    var q1 := cp / 0x40;
    DigitSplit(cp);
    DigitSplit(q1);
    assert cp / 0x1000 == q1 / 0x40;
  }

  lemma FourDigits(cp: nat)
    ensures (cp / 0x4_0000) * 0x4_0000 + ((cp / 0x1000) % 0x40) * 0x1000 + ((cp / 0x40) % 0x40) * 0x40 + cp % 0x40 == cp
  {
    var q1 := cp / 0x40;
    var q2 := q1 / 0x40;
    DigitSplit(cp);
    DigitSplit(q1);
    DigitSplit(q2);
    assert cp / 0x1000 == q2;
    assert cp / 0x4_0000 == q2 / 0x40;
  }

  /** Decoding the encoding of a string gives back its scalar values, so
      the encoding loses nothing. */
  lemma {:induction false} DecodeEncode(s: string)
    ensures Decode(Encode(s)) == ScalarValues(s)
  {
    if |s| > 0 {
      var head := EncodeChar(s[0]);
      var bs := Encode(s);
      assert bs[..|head|] == head && bs[|head|..] == Encode(s[1..]);
      DecodeEncodeChar(s[0]);
      DecodeEncode(s[1..]);
    }
  }

  /** A string without NUL characters encodes without zero bytes, so the
      NUL the patcher appends is the first zero of the written field. */
  lemma {:induction false} EncodeHasNoNul(s: string)
    requires forall k :: 0 <= k < |s| ==> s[k] != '\0'
    ensures forall k :: 0 <= k < |Encode(s)| ==> Encode(s)[k] != 0
  {
    if |s| > 0 {
      EncodeHasNoNul(s[1..]);
      var head := EncodeChar(s[0]);
      assert head[0] != 0;
      assert forall k :: 1 <= k < |head| ==> head[k] != 0;
    }
  }

  /** ASCII text encodes byte for byte. */
  lemma {:induction false} EncodeAscii(s: string)
    requires forall k :: 0 <= k < |s| ==> s[k] as int < 0x80
    ensures |Encode(s)| == |s|
    ensures forall k :: 0 <= k < |s| ==> Encode(s)[k] == s[k] as int
  {
    if |s| > 0 {
      EncodeAscii(s[1..]);
    }
  }
}
