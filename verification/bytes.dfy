/**
 Little-endian byte encoding, the only serialisation the patch engine uses:
 every field it reads with `struct.unpack('<H' | '<I' | '<Q')` and every
 payload it builds with `struct.pack` is an unsigned little-endian integer
 of a fixed width.
 */
module Bytes {

  /** One octet of a boot image or of a patch payload. */
  type byte = b: int | 0 <= b < 256

  /** 256^n: the number of distinct values an n-byte field can hold. */
  function Pow256(n: nat): (p: nat)
    ensures p >= 1
  {
    if n == 0 then 1 else 256 * Pow256(n - 1)
  }

  const TwoTo16: nat := 0x1_0000
  const TwoTo32: nat := 0x1_0000_0000
  const TwoTo64: nat := 0x1_0000_0000_0000_0000

  lemma PowersOfTwo()
    ensures Pow256(2) == TwoTo16
    ensures Pow256(4) == TwoTo32
    ensures Pow256(8) == TwoTo64
  {
    assert Pow256(2) == 0x1_0000;
    assert Pow256(4) == 256 * 256 * Pow256(2);
  }

  /** Dividing a value that fits in width+1 bytes by 256 leaves one that fits in width bytes. */
  lemma ShiftFits(v: nat, width: nat)
    requires v < Pow256(width + 1)
    ensures v / 256 < Pow256(width)
  {
  }

  /** `struct.pack('<…', v)` for an unsigned field of `width` bytes; the
      source raises when v does not fit, hence the precondition. */
  function ToLE(v: nat, width: nat): (bs: seq<byte>)
    requires v < Pow256(width)
    ensures |bs| == width
    decreases width
  {
    if width == 0 then []
    else
      ShiftFits(v, width - 1);
      [v % 256] + ToLE(v / 256, width - 1)
  }

  /** `struct.unpack('<…', bs)[0]`: the unsigned value of a little-endian byte string. */
  function FromLE(bs: seq<byte>): (v: nat)
    ensures v < Pow256(|bs|)
  {
    if |bs| == 0 then 0 else bs[0] + 256 * FromLE(bs[1..])
  }

  /** Decoding an encoded value gives the value back. */
  lemma {:induction false} FromToLE(v: nat, width: nat)
    requires v < Pow256(width)
    ensures FromLE(ToLE(v, width)) == v
    decreases width
  {
    if width > 0 {
      ShiftFits(v, width - 1);
      var bs := ToLE(v, width);
      assert bs[1..] == ToLE(v / 256, width - 1);
      FromToLE(v / 256, width - 1);
    }
  }

  /** Encoding a decoded byte string at its own width gives the bytes back,
      so every field value has exactly one encoding. */
  lemma {:induction false} ToFromLE(bs: seq<byte>)
    ensures ToLE(FromLE(bs), |bs|) == bs
  {
    if |bs| > 0 {
      var v := FromLE(bs);
      assert v % 256 == bs[0];
      assert v / 256 == FromLE(bs[1..]);
      ToFromLE(bs[1..]);
    }
  }

  /** A little-endian value split into a low and a high part: the low
      part's bytes come first. */
  lemma {:induction false} FromLEAppend(lo: seq<byte>, hi: seq<byte>)
    ensures FromLE(lo + hi) == FromLE(lo) + Pow256(|lo|) * FromLE(hi)
  {
    if |lo| > 0 {
      assert (lo + hi)[0] == lo[0] && (lo + hi)[1..] == lo[1..] + hi;
      FromLEAppend(lo[1..], hi);
      Regroup(lo[0], FromLE(lo[1..]), Pow256(|lo| - 1), FromLE(hi), FromLE(lo), Pow256(|lo|));
    } else {
      assert lo + hi == hi;
    }
  }

  /** `a + 256*(y + p*x) == lowValue + power*x` when `lowValue == a + 256*y`
      and `power == 256*p`. */
  lemma Regroup(a: int, y: int, p: int, x: int, lowValue: int, power: int)
    requires lowValue == a + 256 * y && power == 256 * p
    ensures a + 256 * (y + p * x) == lowValue + power * x
  {
  }

  /** Reads the little-endian field of `width` bytes stored at `offset`. */
  function ReadLE(buf: seq<byte>, offset: nat, width: nat): (v: nat)
    requires offset + width <= |buf|
    ensures v < Pow256(width)
  {
    FromLE(buf[offset..offset + width])
  }

  /** `struct.unpack('<H', buf[offset:offset+2])[0]`. */
  function ReadLE16(buf: seq<byte>, offset: nat): (v: nat)
    requires offset + 2 <= |buf|
    ensures v < TwoTo16
    ensures v == buf[offset] as int + 256 * buf[offset + 1] as int
  {
    PowersOfTwo();
    var bs := buf[offset..offset + 2];
    assert bs[1..][1..] == [];
    assert FromLE(bs[1..]) == bs[1] as int;
    ReadLE(buf, offset, 2)
  }
}
