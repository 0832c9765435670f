/**
 Concrete images run through the patch engine: the repository's patcher
 test (a 1024-byte zero image with a patch area at 128 and an extended
 patch area at 512) and the edge of the magic scan.
 */
module Scenario {
  import opened Bytes
  import opened Patcher
  import opened Extents

  /** The test image: zeros, the magic number at 128, `epaoffset` = 512,
      and in the extended patch area `secptroffset` = 600,
      `secptrcnt` = 10, `sect1ptr0` = 16 and `sect1ptr1` = 18, each a
      little-endian 16-bit value. */
  function TestByte(i: nat): byte
  {
    if 128 <= i < 132 then MagicBytes[i - 128]
    else if i == 151 then 0x02           // epaoffset = 0x0200 at 128 + 22
    else if i == 522 then 0x58           // secptroffset = 0x0258 at 512 + 10
    else if i == 523 then 0x02
    else if i == 524 then 10             // secptrcnt at 512 + 12
    else if i == 526 then 16             // sect1ptr0 at 512 + 14
    else if i == 528 then 18             // sect1ptr1 at 512 + 16
    else 0
  }

  function TestImage(): (img: seq<byte>)
    ensures |img| == 1024
    ensures forall i :: 0 <= i < 1024 ==> img[i] == TestByte(i)
  {
    seq(1024, i requires 0 <= i < 1024 => TestByte(i))
  }

  function TestSectors(): seq<nat>
  {
    [1000, 1001, 1002, 1003]
  }

  /** The scan finds the patch area of the test image at 128: nothing
      before it starts with the magic's first byte. */
  lemma TestMagicAt128()
    ensures FindMagic(TestImage()) == Some(128)
  {
    var img := TestImage();
    assert img[128..132] == MagicBytes;
    assert IsMagicAt(img, 128);
    forall j | 0 <= j < 128
      ensures !IsMagicAt(img, j)
    {
      if j + 4 < |img| {
        assert img[j..j + 4][0] == img[j] == 0;
      }
    }
  }

  /** The test image meets every range demand of the patcher, with its
      extended patch area at 512. */
  lemma TestHeaderFits()
    ensures EpaBase(TestImage(), 128) == 512
    ensures HeaderFits(TestImage(), 128, TestSectors(), false)
  {
    PowersOfTwo();
    var img := TestImage();
    assert img[150] == 0 && img[151] == 2;
    assert DataSectors(1024) == 2;
  }

  /** The repository's patcher test: the image is well-formed, yields
      patches, and the one at offset 16 (the offset stored in `sect1ptr0`)
      holds the 32-bit value 1000, the first sector; the one at 18 holds
      its high half, 0. */
  lemma TestFirstSectorPatch()
    ensures WellFormed(TestImage(), TestSectors(), false) &&
            var r := CalculatePatches(TestImage(), TestSectors(), false, None, None);
            && |r| >= 2
            && r[0].offset == 16 && |r[0].data| == 4 && FromLE(r[0].data) == 1000
            && r[1].offset == 18 && |r[1].data| == 4 && FromLE(r[1].data) == 0
  {
    TestMagicAt128();
    TestHeaderFits();
    assert ReadLE16(TestImage(), 512 + Sect1Ptr0Field) == 16;
    assert ReadLE16(TestImage(), 512 + Sect1Ptr1Field) == 18;
    FirstSectorPatches(TestImage(), 128, TestSectors(), false, None, None);
    FirstSectorValue(TestImage(), 128, TestSectors(), false, None, None);
  }

  /** The sector map of the test image holds three patches: the image
      spans 2 data sectors plus 2 ADV sectors, so one sector after the
      first goes to the extent table and the last two are the ADV sectors. */
  lemma TestSectorMapSize()
    ensures |SectorMapPatches(TestImage(), 512, TestSectors(), 4)| == 3
  {
    assert ExtentInput(TestSectors(), 4) == [1001];
    assert Compress([1001]) == [Extent(1001, 1)];
    assert TestImage()[524] == 10 && TestImage()[525] == 0;
    SectorMapLayout(TestImage(), 512, TestSectors(), 4);
  }

  /** The extent table of the test image: sector 1001 as one one-sector
      extent at `secptroffset` = 600. */
  lemma TestExtentRecord()
    ensures var mp := SectorMapPatches(TestImage(), 512, TestSectors(), 4);
            |mp| > 0 && mp[0].offset == 600 && Unpack(mp[0].data) == Extent(1001, 1)
  {
    assert ExtentInput(TestSectors(), 4) == [1001];
    assert Compress([1001]) == [Extent(1001, 1)];
    assert TestImage()[522] == 0x58 && TestImage()[523] == 0x02;
    assert TestImage()[524] == 10 && TestImage()[525] == 0;
    SectorMapLayout(TestImage(), 512, TestSectors(), 4);
  }

  /** A magic number in the last word alone is not found, since the scan
      stops before `len - 4`, so the image gets no patches; one more byte
      after it and it is found. */
  lemma MagicInLastWordIgnored()
    ensures var img := [0, 0, 0, 0] + MagicBytes;
            && FindMagic(img) == None
            && CalculatePatches(img, [], false, None, None) == []
    ensures var img := [0, 0, 0, 0] + MagicBytes + [0];
            FindMagic(img) == Some(4)
  {
    var img: seq<byte> := [0, 0, 0, 0] + MagicBytes;
    assert !IsMagicAt(img, 0) by {
      assert img[0..4][0] == 0;
    }
    var longer: seq<byte> := img + [0];
    assert longer[4..8] == MagicBytes;
    assert IsMagicAt(longer, 4);
    assert !IsMagicAt(longer, 0) by {
      assert longer[0..4][0] == 0;
    }
  }
}
