/**
 `Patcher.calculate_patches`: adapts a generic `ldlinux.sys` image to the
 disk sectors it occupies by computing an ordered list of (offset, bytes)
 overwrites. The image carries a patch area, found by its magic number,
 whose `epaoffset` field points at an extended patch area; every field of
 the extended area is itself an absolute image offset where a value must
 be written. The last overwrite is a checksum that makes the patched
 image's 32-bit word sum equal the magic number.
 */
module Patcher {
  import opened Bytes
  import opened Extents
  import Utf8

  datatype Option<T> = None | Some(value: T)

  /** `LDLINUX_MAGIC`. */
  const Magic: nat := 0x3eb202fe
  /** `struct.pack('<I', LDLINUX_MAGIC)`. */
  const MagicBytes: seq<byte> := [0xfe, 0x02, 0xb2, 0x3e]

  // Fields of the patch area, relative to the magic number.
  const DataSectorsField: nat := 8
  const AdvSectorsField: nat := 10
  const DwordsField: nat := 12
  const ChecksumField: nat := 16
  const EpaOffsetField: nat := 22
  /** The patch area ends with the 2-byte `epaoffset` field. */
  const PatchAreaSize: nat := 24

  // Fields of the extended patch area, relative to its base. Each holds an
  // absolute image offset (or, for the two lengths and the count, a size).
  const AdvPtrOffsetField: nat := 0
  const DirOffsetField: nat := 2
  const DirLenField: nat := 4
  const SubvolOffsetField: nat := 6
  const SubvolLenField: nat := 8
  const SecPtrOffsetField: nat := 10
  const SecPtrCntField: nat := 12
  const Sect1Ptr0Field: nat := 14
  const Sect1Ptr1Field: nat := 16
  const RaidPatchField: nat := 18

  /** Number of auxiliary-data (ADV) sectors after the image body. */
  const AdvSectors: nat := 2
  /** The 2-byte value written at the RAID patch site (`int 18h`). */
  const RaidOpcode: nat := 0x18CD

  /** One overwrite: write `data` at byte `offset` of the image. */
  datatype Patch = Patch(offset: nat, data: seq<byte>)

  lemma MagicBytesEncodeMagic()
    ensures MagicBytes == ToLE(Magic, 4) && FromLE(MagicBytes) == Magic
  {
    PowersOfTwo();
    FromToLE(Magic, 4);
  }

  // ---------------------------------------------------------------------
  // Locating the patch area.
  // ---------------------------------------------------------------------

  /** The scan's acceptance test at offset `i`: 4-aligned, strictly below
      `len - 4` (the scan is `range(0, len - 4)`), and holding the magic. */
  predicate IsMagicAt(content: seq<byte>, i: nat)
  {
    i % 4 == 0 && i + 4 < |content| && content[i..i + 4] == MagicBytes
  }

  function FindMagicFrom(content: seq<byte>, i: nat): (r: Option<nat>)
    requires i % 4 == 0
    ensures r.Some? ==> i <= r.value && IsMagicAt(content, r.value)
    ensures r.Some? ==> forall j :: i <= j < r.value ==> !IsMagicAt(content, j)
    ensures r.None? ==> forall j :: i <= j ==> !IsMagicAt(content, j)
    decreases |content| - i
  {
    if i + 4 >= |content| then None
    else if content[i..i + 4] == MagicBytes then Some(i)
    else FindMagicFrom(content, i + 4)
  }

  /** The offset of the patch area: the first offset the scan accepts. */
  function FindMagic(content: seq<byte>): (r: Option<nat>)
    ensures r.Some? ==> IsMagicAt(content, r.value)
    ensures r.Some? ==> forall j :: 0 <= j < r.value ==> !IsMagicAt(content, j)
    ensures r.None? <==> forall j :: !IsMagicAt(content, j)
  {
    FindMagicFrom(content, 0)
  }

  // ---------------------------------------------------------------------
  // The two-level indirection and the source's implicit failure points.
  // ---------------------------------------------------------------------

  /** The absolute offset of the extended patch area, read from the
      patch area's `epaoffset` field. */
  function EpaBase(content: seq<byte>, m: nat): nat
    requires m + PatchAreaSize <= |content|
  {
    ReadLE16(content, m + EpaOffsetField)
  }

  /** `ceil(len / 512)`: the image's data sectors (`nsect - 2`). */
  function DataSectors(len: nat): (n: nat)
    ensures n * SectorSize >= len
    ensures n * SectorSize < len + SectorSize
  {
    (len + SectorSize - 1) / SectorSize
  }

  /** The sector numbers below index `nsect`, the only ones ever packed,
      fit in 64 bits. */
  predicate SectorsFit(sectors: seq<nat>, nsect: nat)
  {
    forall i :: 0 <= i < |sectors| && i < nsect ==> sectors[i] < TwoTo64
  }

  /** Everything the source reads or packs without a range check lies in
      range: the patch area (including the checksum field), the extended
      patch area fields it reads, the 16-bit data-sector count, and the
      64-bit sector numbers it packs (only sectors below index `nsect` are
      ever used). Outside these the source raises `struct.error` or grows
      its scratch buffer. */
  predicate HeaderFits(content: seq<byte>, m: nat, sectors: seq<nat>, raidMode: bool)
  {
    && m + PatchAreaSize <= |content|
    && EpaBase(content, m) + RaidPatchField <= |content|
    && (raidMode ==> EpaBase(content, m) + RaidPatchField + 2 <= |content|)
    && DataSectors(|content|) < TwoTo16
    && SectorsFit(sectors, DataSectors(|content|) + AdvSectors)
  }

  /** The caller-side precondition of `calculate_patches`: when the image
      has a patch area, it is laid out so that no read or pack fails. */
  predicate WellFormed(content: seq<byte>, sectors: seq<nat>, raidMode: bool)
  {
    match FindMagic(content)
    case None => true
    case Some(m) => HeaderFits(content, m, sectors, raidMode)
  }

  // ---------------------------------------------------------------------
  // The patch groups, in emission order.
  // ---------------------------------------------------------------------

  /** The first sector's 64-bit LBA, written as two 32-bit halves at the
      offsets stored in `sect1ptr0` and `sect1ptr1`. */
  function SectorPointerPatches(content: seq<byte>, epa: nat, sectors: seq<nat>): (r: seq<Patch>)
    requires epa + RaidPatchField <= |content|
    requires |sectors| > 0 ==> sectors[0] < TwoTo64
    ensures |sectors| == 0 ==> r == []
    ensures |sectors| > 0 ==>
      && |r| == 2
      && r[0].offset == ReadLE16(content, epa + Sect1Ptr0Field)
      && r[1].offset == ReadLE16(content, epa + Sect1Ptr1Field)
      && |r[0].data| == 4 && |r[1].data| == 4
      && r[0].data + r[1].data == ToLE(sectors[0], 8)
  {
    if |sectors| == 0 then []
    else
      PowersOfTwo();
      var s0 := sectors[0];
      var low := ToLE(s0 % TwoTo32, 4);
      var high := ToLE(s0 / TwoTo32, 4);
      assert low + high == ToLE(s0, 8) by {
        FromToLE(s0 % TwoTo32, 4);
        FromToLE(s0 / TwoTo32, 4);
        FromLEAppend(low, high);
        ToFromLE(low + high);
      }
      [Patch(ReadLE16(content, epa + Sect1Ptr0Field), low),
       Patch(ReadLE16(content, epa + Sect1Ptr1Field), high)]
  }

  /** In RAID mode, the opcode bytes `CD 18` at the offset stored in `raidpatch`. */
  function RaidPatches(content: seq<byte>, epa: nat, raidMode: bool): (r: seq<Patch>)
    requires raidMode ==> epa + RaidPatchField + 2 <= |content|
    ensures !raidMode ==> r == []
    ensures raidMode ==> r == [Patch(ReadLE16(content, epa + RaidPatchField), [0xCD, 0x18])]
  {
    if raidMode then
      PowersOfTwo();
      assert ToLE(RaidOpcode, 2) == [0xCD] + ToLE(0x18, 1) == [0xCD, 0x18] by {
        assert ToLE(0x18, 1) == [0x18] + ToLE(0, 0);
      }
      [Patch(ReadLE16(content, epa + RaidPatchField), ToLE(RaidOpcode, 2))]
    else []
  }

  /** The three size fields of the patch area: data sectors, ADV sectors
      and whole dwords of the image. */
  function TotalsPatches(m: nat, len: nat): (r: seq<Patch>)
    requires DataSectors(len) < TwoTo16
    ensures |r| == 3
    ensures r[0].offset == m + DataSectorsField && |r[0].data| == 2
    ensures r[1].offset == m + AdvSectorsField && |r[1].data| == 2
    ensures r[2].offset == m + DwordsField && |r[2].data| == 4
    ensures len <= FromLE(r[0].data) * SectorSize < len + SectorSize
    ensures FromLE(r[1].data) == AdvSectors
    ensures FromLE(r[2].data) * 4 <= len < FromLE(r[2].data) * 4 + 4
  {
    PowersOfTwo();
    var dataSectors := DataSectors(len);
    var dwords := len / 4;
    FromToLE(dataSectors, 2);
    FromToLE(AdvSectors, 2);
    FromToLE(dwords, 4);
    [Patch(m + DataSectorsField, ToLE(dataSectors, 2)),
     Patch(m + AdvSectorsField, ToLE(AdvSectors, 2)),
     Patch(m + DwordsField, ToLE(dwords, 4))]
  }

  /** The sectors mapped by the extent table: those after the first, at
      most `nsect - 3` of them (the image body minus its first sector). */
  function ExtentInput(sectors: seq<nat>, nsect: nat): (s: seq<nat>)
    requires |sectors| > 0 && nsect >= 3
    ensures |s| == if |sectors| - 1 <= nsect - 3 then |sectors| - 1 else nsect - 3
    ensures forall k :: 0 <= k < |s| ==> s[k] == sectors[k + 1]
  {
    var rest := sectors[1..];
    if |rest| >= nsect - 3 then rest[..nsect - 3] else rest
  }

  /** One packed record per extent, 10 bytes apart from `start`, stopping
      after `capacity` records. */
  function ExtentRecords(start: nat, capacity: nat, es: seq<Extent>): (r: seq<Patch>)
    requires forall e <- es :: Packable(e)
    ensures |r| == if |es| <= capacity then |es| else capacity
    ensures forall i :: 0 <= i < |r| ==>
      && r[i].offset == start + ExtentRecordSize * i
      && |r[i].data| == ExtentRecordSize
      && Unpack(r[i].data) == es[i]
  {
    var n := if |es| <= capacity then |es| else capacity;
    seq(n, i requires 0 <= i < n => RecordAt(start, es, i))
  }

  /** The packed record of extent `i`, at its slot of the table. */
  function RecordAt(start: nat, es: seq<Extent>, i: nat): (p: Patch)
    requires i < |es| && Packable(es[i])
    ensures p.offset == start + ExtentRecordSize * i
    ensures |p.data| == ExtentRecordSize && Unpack(p.data) == es[i]
  {
    UnpackPack(es[i]);
    Patch(start + ExtentRecordSize * i, Pack(es[i]))
  }

  /** The two ADV sectors, `sectors[nsect-2]` and `sectors[nsect-1]`, as
      8-byte values at `advptr` and `advptr + 8`, each only if present. */
  function AdvPatches(advptr: nat, sectors: seq<nat>, nsect: nat): (r: seq<Patch>)
    requires nsect >= AdvSectors
    requires SectorsFit(sectors, nsect)
    ensures |r| == (if |sectors| > nsect - 2 then 1 else 0) + (if |sectors| > nsect - 1 then 1 else 0)
    ensures |sectors| > nsect - 2 ==>
      r[0].offset == advptr && |r[0].data| == 8 && FromLE(r[0].data) == sectors[nsect - 2]
    ensures |sectors| > nsect - 1 ==>
      r[1].offset == advptr + 8 && |r[1].data| == 8 && FromLE(r[1].data) == sectors[nsect - 1]
  {
    PowersOfTwo();
    var first := if |sectors| > nsect - 2 then
      FromToLE(sectors[nsect - 2], 8);
      [Patch(advptr, ToLE(sectors[nsect - 2], 8))]
    else [];
    var second := if |sectors| > nsect - 1 then
      FromToLE(sectors[nsect - 1], 8);
      [Patch(advptr + 8, ToLE(sectors[nsect - 1], 8))]
    else [];
    first + second
  }

  /** The extent table and the ADV pointers; both need a non-empty sector list. */
  function SectorMapPatches(content: seq<byte>, epa: nat, sectors: seq<nat>, nsect: nat): (r: seq<Patch>)
    requires epa + RaidPatchField <= |content|
    requires nsect >= 3
    requires SectorsFit(sectors, nsect)
    ensures |sectors| == 0 ==> r == []
  {
    if |sectors| == 0 then []
    else
      var es := Compress(ExtentInput(sectors, nsect));
      CompressExtentsWellFormed(ExtentInput(sectors, nsect));
      ExtentRecords(ReadLE16(content, epa + SecPtrOffsetField), ReadLE16(content, epa + SecPtrCntField), es)
        + AdvPatches(ReadLE16(content, epa + AdvPtrOffsetField), sectors, nsect)
  }

  /** A directory or subvolume string: its UTF-8 bytes and a NUL at the
      offset stored in the offset field, when it is given, non-empty, and
      fits the length stored in the length field; otherwise nothing. */
  function StringPatches(content: seq<byte>, offsetField: nat, lengthField: nat, s: Option<string>): (r: seq<Patch>)
    requires offsetField + 2 <= |content| && lengthField + 2 <= |content|
    ensures |r| <= 1
    ensures |r| == 1 <==>
      s.Some? && |s.value| > 0 && |Utf8.Encode(s.value)| + 1 <= ReadLE16(content, lengthField)
    ensures |r| == 1 ==>
      && r[0].offset == ReadLE16(content, offsetField)
      && 1 <= |r[0].data| <= ReadLE16(content, lengthField)
      && r[0].data[..|r[0].data| - 1] == Utf8.Encode(s.value)
      && r[0].data[|r[0].data| - 1] == 0
  {
    match s
    case None => []
    case Some(text) =>
      if |text| == 0 then []
      else
        var bytes := Utf8.Encode(text) + [0];
        assert bytes[..|bytes| - 1] == Utf8.Encode(text);
        if |bytes| <= ReadLE16(content, lengthField) then [Patch(ReadLE16(content, offsetField), bytes)] else []
  }

  /** The groups of patches before the checksum, in the source's order:
      first-sector pointers, RAID opcode, size fields, sector map (extent
      table and ADV pointers), directory string, subvolume string. */
  datatype Layout = Layout(pointers: seq<Patch>, raid: seq<Patch>, sizes: seq<Patch>,
                           sectorMap: seq<Patch>, dir: seq<Patch>, subvol: seq<Patch>)

  function Groups(content: seq<byte>, m: nat, sectors: seq<nat>, raidMode: bool,
                  subdir: Option<string>, subvol: Option<string>): (g: Layout)
    requires HeaderFits(content, m, sectors, raidMode)
  {
    var epa := EpaBase(content, m);
    Layout(SectorPointerPatches(content, epa, sectors),
           RaidPatches(content, epa, raidMode),
           TotalsPatches(m, |content|),
           SectorMapPatches(content, epa, sectors, DataSectors(|content|) + AdvSectors),
           StringPatches(content, epa + DirOffsetField, epa + DirLenField, subdir),
           StringPatches(content, epa + SubvolOffsetField, epa + SubvolLenField, subvol))
  }

  /** The groups one after the other. */
  function Flat(g: Layout): (r: seq<Patch>)
    ensures |r| == |g.pointers| + |g.raid| + |g.sizes| + |g.sectorMap| + |g.dir| + |g.subvol|
  {
    g.pointers + g.raid + g.sizes + g.sectorMap + g.dir + g.subvol
  }

  /** All patches before the checksum. */
  function BodyPatches(content: seq<byte>, m: nat, sectors: seq<nat>, raidMode: bool,
                       subdir: Option<string>, subvol: Option<string>): seq<Patch>
    requires HeaderFits(content, m, sectors, raidMode)
  {
    Flat(Groups(content, m, sectors, raidMode, subdir, subvol))
  }

  // ---------------------------------------------------------------------
  // Applying patches and the checksum.
  // ---------------------------------------------------------------------

  /** `buf[offset:offset+len(data)] = data` for an in-range slice. */
  function Overwrite(buf: seq<byte>, offset: nat, data: seq<byte>): (r: seq<byte>)
    requires offset + |data| <= |buf|
    ensures |r| == |buf|
    ensures forall k :: 0 <= k < |buf| ==>
      r[k] == if offset <= k < offset + |data| then data[k - offset] else buf[k]
  {
    buf[..offset] + data + buf[offset + |data|..]
  }

  /** A patch is applied to the scratch copy only if it lies within it. */
  function ApplyPatch(buf: seq<byte>, p: Patch): (r: seq<byte>)
    ensures |r| == |buf|
  {
    if p.offset + |p.data| <= |buf| then Overwrite(buf, p.offset, p.data) else buf
  }

  /** Applies the in-range patches in list order (the last one last). */
  function ApplyInBounds(buf: seq<byte>, ps: seq<Patch>): (r: seq<byte>)
    ensures |r| == |buf|
  {
    if |ps| == 0 then buf else ApplyPatch(ApplyInBounds(buf, ps[..|ps| - 1]), ps[|ps| - 1])
  }

  /** The little-endian 32-bit word with index `k`. */
  function Word(buf: seq<byte>, k: nat): (w: nat)
    requires 4 * k + 4 <= |buf|
    ensures w < TwoTo32
  {
    PowersOfTwo();
    FromLE(buf[4 * k..4 * k + 4])
  }

  /** Sum of the first `n` words. */
  function WordSum(buf: seq<byte>, n: nat): nat
    requires 4 * n <= |buf|
  {
    if n == 0 then 0 else WordSum(buf, n - 1) + Word(buf, n - 1)
  }

  /** Sum of all whole words; a trailing partial word is not counted. */
  function FullWordSum(buf: seq<byte>): nat
  {
    WordSum(buf, |buf| / 4)
  }

  /** The loader's integrity check: the word sum is the magic number modulo 2^32. */
  predicate ChecksumValid(img: seq<byte>)
  {
    FullWordSum(img) % TwoTo32 == Magic
  }

  /** The scratch copy the checksum is computed over: every in-range patch
      applied in order, then the checksum field zeroed. */
  function Scratch(content: seq<byte>, m: nat, body: seq<Patch>): (r: seq<byte>)
    requires m + ChecksumField + 4 <= |content|
    ensures |r| == |content|
  {
    Overwrite(ApplyInBounds(content, body), m + ChecksumField, [0, 0, 0, 0])
  }

  /** `c` completes the word sum of `scratch` to the magic number modulo 2^32. */
  predicate Complements(c: nat, scratch: seq<byte>)
  {
    (c + FullWordSum(scratch)) % TwoTo32 == Magic
  }

  /** The checksum value: the 32-bit number that, added to the scratch
      copy's word sum, gives the magic number modulo 2^32. */
  function ChecksumValue(scratch: seq<byte>): (c: nat)
    ensures c < TwoTo32
    ensures Complements(c, scratch)
  {
    (Magic - FullWordSum(scratch)) % TwoTo32
  }

  lemma ModSubAdd(a: int, b: int, w: int)
    ensures ((a - w) % TwoTo32 + b + w) % TwoTo32 == (a + b) % TwoTo32
  {
    var n := TwoTo32;
    var q := (a - w) / n;
    assert (a - w) % n == (a - w) - q * n;
    assert ((a - w) % n + b + w) == (a + b) + (-q) * n;
  }

  /** The source's checksum loop: start at the magic number and subtract
      every whole little-endian word, wrapping at 2^32; the loop steps
      over the buffer 4 bytes at a time and skips a trailing partial word. */
  method ComputeChecksum(buf: seq<byte>) returns (csum: nat)
    ensures csum < TwoTo32
    ensures (csum + FullWordSum(buf)) % TwoTo32 == Magic
  {
    csum := Magic;
    var i := 0;
    while i < |buf|
      invariant i % 4 == 0 && i <= |buf| + 3
      invariant csum < TwoTo32
      invariant (csum + WordSum(buf, if i <= |buf| then i / 4 else |buf| / 4)) % TwoTo32 == Magic
    {
      if i + 4 <= |buf| {
        var val := FromLE(buf[i..i + 4]);
        assert val == Word(buf, i / 4);
        ModSubAdd(csum, WordSum(buf, i / 4), val);
        csum := (csum - val) % TwoTo32;
      }
      i := i + 4;
    }
  }

  /** The final patch: the checksum value, 4 bytes at the checksum field. */
  function ChecksumPatch(m: nat, scratch: seq<byte>): (p: Patch)
    ensures p.offset == m + ChecksumField && |p.data| == 4
    ensures Complements(FromLE(p.data), scratch)
  {
    var csum := ChecksumValue(scratch);
    PowersOfTwo();
    FromToLE(csum, 4);
    Patch(m + ChecksumField, ToLE(csum, 4))
  }

  // ---------------------------------------------------------------------
  // calculate_patches.
  // ---------------------------------------------------------------------

  /** `Patcher.calculate_patches`. No patches for an empty image or one
      without a patch area; otherwise the body patches followed by the
      checksum patch at the patch area's checksum field. */
  function CalculatePatches(content: seq<byte>, sectors: seq<nat>, raidMode: bool,
                            subdir: Option<string>, subvol: Option<string>): (r: seq<Patch>)
    requires WellFormed(content, sectors, raidMode)
    ensures r == [] <==> forall i :: !IsMagicAt(content, i)
    ensures FindMagic(content).Some? ==>
      && |r| >= 4
      && r[|r| - 1].offset == FindMagic(content).value + ChecksumField
      && |r[|r| - 1].data| == 4
      && r[..|r| - 1] == BodyPatches(content, FindMagic(content).value, sectors, raidMode, subdir, subvol)
  {
    if |content| == 0 then []
    else
      match FindMagic(content)
      case None => []
      case Some(m) =>
        var body := BodyPatches(content, m, sectors, raidMode, subdir, subvol);
        var last := ChecksumPatch(m, Scratch(content, m, body));
        var r := body + [last];
        assert r[..|r| - 1] == body && r[|r| - 1] == last;
        r
  }

  // ---------------------------------------------------------------------
  // Properties of calculate_patches.
  // ---------------------------------------------------------------------

  /** The checksum patch carries the value that, added to the word sum of
      the scratch copy (the image with every earlier in-range patch applied
      in order and the checksum field zeroed), gives the magic number. */
  lemma ChecksumOverPatchedCopy(content: seq<byte>, sectors: seq<nat>, raidMode: bool,
                                subdir: Option<string>, subvol: Option<string>)
    requires WellFormed(content, sectors, raidMode) && FindMagic(content).Some?
    ensures var r := CalculatePatches(content, sectors, raidMode, subdir, subvol);
            var m := FindMagic(content).value;
            Complements(FromLE(r[|r| - 1].data), Scratch(content, m, r[..|r| - 1]))
  {
    var m := FindMagic(content).value;
    var body := BodyPatches(content, m, sectors, raidMode, subdir, subvol);
    var r := CalculatePatches(content, sectors, raidMode, subdir, subvol);
    var scratch := Scratch(content, m, body);
    var last := ChecksumPatch(m, scratch);
    assert r == body + [last];
    assert r[..|r| - 1] == body && r[|r| - 1] == last;
  }

  /** Overwriting word `k` changes only word `k`. */
  lemma OverwriteWord(buf: seq<byte>, k: nat, d: seq<byte>, j: nat)
    requires |d| == 4 && 4 * k + 4 <= |buf| && 4 * j + 4 <= |buf|
    ensures Word(Overwrite(buf, 4 * k, d), j) == if j == k then FromLE(d) else Word(buf, j)
  {
    var o := Overwrite(buf, 4 * k, d);
    if j == k {
      assert o[4 * j..4 * j + 4] == d;
    } else {
      assert o[4 * j..4 * j + 4] == buf[4 * j..4 * j + 4];
    }
  }

  /** Overwriting word `k` shifts the sum of the first `n` words by the
      difference between the new and the old word, when `k < n`. */
  lemma {:induction false} OverwriteWordSum(buf: seq<byte>, k: nat, d: seq<byte>, n: nat)
    requires |d| == 4 && 4 * k + 4 <= |buf| && 4 * n <= |buf|
    ensures WordSum(Overwrite(buf, 4 * k, d), n) + (if k < n then Word(buf, k) else 0)
         == WordSum(buf, n) + (if k < n then FromLE(d) else 0)
  {
    if n > 0 {
      OverwriteWordSum(buf, k, d, n - 1);
      OverwriteWord(buf, k, d, n - 1);
    }
  }

  /** Writing the checksum patch over a copy whose zeroed-field word sum it
      complements makes the copy checksum-valid. */
  lemma ChecksumPatchMakesValid(patched: seq<byte>, m: nat, last: Patch)
    requires m % 4 == 0 && m + ChecksumField + 4 <= |patched|
    requires last.offset == m + ChecksumField && |last.data| == 4
    requires Complements(FromLE(last.data), Overwrite(patched, m + ChecksumField, [0, 0, 0, 0]))
    ensures ChecksumValid(ApplyPatch(patched, last))
  {
    OverwriteShift(patched, last.offset, last.data);
    ApplyInRange(patched, last);
    ComplementedSum(FullWordSum(ApplyPatch(patched, last)), FullWordSum(Overwrite(patched, m + ChecksumField, [0, 0, 0, 0])),
                    FromLE(last.data));
  }

  lemma ApplyInRange(buf: seq<byte>, p: Patch)
    requires p.offset + |p.data| <= |buf|
    ensures ApplyPatch(buf, p) == Overwrite(buf, p.offset, p.data)
  {
  }

  lemma ComplementedSum(total: nat, rest: nat, c: nat)
    requires total == rest + c && (c + rest) % TwoTo32 == Magic
    ensures total % TwoTo32 == Magic
  {
  }

  /** Overwriting an aligned word adds the new word's value to the word sum
      of the copy with that word zeroed. */
  lemma OverwriteShift(buf: seq<byte>, offset: nat, d: seq<byte>)
    requires offset % 4 == 0 && offset + 4 <= |buf| && |d| == 4
    ensures FullWordSum(Overwrite(buf, offset, d)) == FullWordSum(Overwrite(buf, offset, [0, 0, 0, 0])) + FromLE(d)
  {
    var k, n := offset / 4, |buf| / 4;
    assert 4 * k == offset && k < n;
    var zeros: seq<byte> := [0, 0, 0, 0];
    assert FromLE(zeros) == 0;
    OverwriteWordSum(buf, k, d, n);
    OverwriteWordSum(buf, k, zeros, n);
  }

  /** The checksum invariant: applying the returned patches in order (those
      that lie within the image) yields an image whose 32-bit word sum is
      the magic number modulo 2^32. */
  lemma PatchedImageChecksumValid(content: seq<byte>, sectors: seq<nat>, raidMode: bool,
                                  subdir: Option<string>, subvol: Option<string>)
    requires WellFormed(content, sectors, raidMode) && FindMagic(content).Some?
    ensures ChecksumValid(ApplyInBounds(content, CalculatePatches(content, sectors, raidMode, subdir, subvol)))
  {
    var m := FindMagic(content).value;
    var r := CalculatePatches(content, sectors, raidMode, subdir, subvol);
    ChecksumOverPatchedCopy(content, sectors, raidMode, subdir, subvol);
    var body := r[..|r| - 1];
    assert ApplyInBounds(content, r) == ApplyPatch(ApplyInBounds(content, body), r[|r| - 1]);
    ChecksumPatchMakesValid(ApplyInBounds(content, body), m, r[|r| - 1]);
  }

  // Where each group sits in a list made of the groups and one final
  // patch; one lemma per group keeps each use small.

  /** An element of a group found at a known position of a list. */
  lemma ElementOf(r: seq<Patch>, group: seq<Patch>, k: nat, j: nat)
    requires k + |group| <= |r| && r[k..k + |group|] == group && j < |group|
    ensures r[k + j] == group[j]
  {
    assert r[k..k + |group|][j] == r[k + j];
  }

  lemma PointersAt(r: seq<Patch>, g: Layout)
    requires |r| > 0 && r[..|r| - 1] == Flat(g)
    ensures |g.pointers| < |r| && r[..|g.pointers|] == g.pointers
  {
    assert r[..|r| - 1][..|g.pointers|] == g.pointers;
  }

  lemma RaidAt(r: seq<Patch>, g: Layout)
    requires |r| > 0 && r[..|r| - 1] == Flat(g)
    ensures var p, q := |g.pointers|, |g.raid|;
            p + q < |r| && r[p..p + q] == g.raid
  {
    var p, q := |g.pointers|, |g.raid|;
    assert r[..|r| - 1][p..p + q] == g.raid;
  }

  lemma SizesAt(r: seq<Patch>, g: Layout)
    requires |r| > 0 && r[..|r| - 1] == Flat(g)
    ensures var p, z := |g.pointers| + |g.raid|, |g.sizes|;
            p + z < |r| && r[p..p + z] == g.sizes
  {
    var p, z := |g.pointers| + |g.raid|, |g.sizes|;
    assert r[..|r| - 1][p..p + z] == g.sizes;
  }

  lemma SectorMapAt(r: seq<Patch>, g: Layout, t: nat)
    requires |r| > 0 && r[..|r| - 1] == Flat(g)
    requires t == |g.pointers| + |g.raid| + |g.sizes|
    ensures t + |g.sectorMap| < |r| && r[t..t + |g.sectorMap|] == g.sectorMap
  {
    assert r[..|r| - 1][t..t + |g.sectorMap|] == g.sectorMap;
  }

  lemma SubvolAt(r: seq<Patch>, g: Layout)
    requires |r| > 0 && r[..|r| - 1] == Flat(g)
    ensures |g.subvol| < |r| && r[|r| - 1 - |g.subvol|..|r| - 1] == g.subvol
  {
    assert r[..|r| - 1][|r| - 1 - |g.subvol|..] == g.subvol;
  }

  /** Number of patches before the three size fields. */
  function PointerCount(sectors: seq<nat>, raidMode: bool): (n: nat)
    ensures n <= 3
  {
    (if |sectors| > 0 then 2 else 0) + (if raidMode then 1 else 0)
  }

  /** With a non-empty sector list the first two patches write the first
      sector's LBA as two 32-bit halves, low half first, at the offsets
      stored in the extended patch area's `sect1ptr0` and `sect1ptr1`
      fields; together the halves are its 64-bit little-endian encoding. */
  lemma FirstSectorPatches(content: seq<byte>, m: nat, sectors: seq<nat>, raidMode: bool,
                           subdir: Option<string>, subvol: Option<string>)
    requires FindMagic(content) == Some(m) && HeaderFits(content, m, sectors, raidMode)
    requires |sectors| > 0
    ensures var epa := EpaBase(content, m);
            var r := CalculatePatches(content, sectors, raidMode, subdir, subvol);
            && r[0].offset == ReadLE16(content, epa + Sect1Ptr0Field)
            && r[1].offset == ReadLE16(content, epa + Sect1Ptr1Field)
            && |r[0].data| == 4 && |r[1].data| == 4
            && r[0].data + r[1].data == ToLE(sectors[0], 8)
  {
    PointersAt(CalculatePatches(content, sectors, raidMode, subdir, subvol), Groups(content, m, sectors, raidMode, subdir, subvol));
  }

  /** The check the repository's patcher test makes, in general: when the
      first sector fits in 32 bits, the patch at the `sect1ptr0` offset
      decodes as a 32-bit value to that sector and the one at `sect1ptr1`
      to zero. */
  lemma FirstSectorValue(content: seq<byte>, m: nat, sectors: seq<nat>, raidMode: bool,
                         subdir: Option<string>, subvol: Option<string>)
    requires FindMagic(content) == Some(m) && HeaderFits(content, m, sectors, raidMode)
    requires |sectors| > 0 && sectors[0] < TwoTo32
    ensures var epa := EpaBase(content, m);
            var r := CalculatePatches(content, sectors, raidMode, subdir, subvol);
            && |r| >= 2
            && r[0].offset == ReadLE16(content, epa + Sect1Ptr0Field) && FromLE(r[0].data) == sectors[0]
            && r[1].offset == ReadLE16(content, epa + Sect1Ptr1Field) && FromLE(r[1].data) == 0
  {
    FirstSectorPatches(content, m, sectors, raidMode, subdir, subvol);
    SplitHalves(CalculatePatches(content, sectors, raidMode, subdir, subvol)[0].data,
                CalculatePatches(content, sectors, raidMode, subdir, subvol)[1].data, sectors[0]);
  }

  /** Two 4-byte halves that together encode a value below 2^32: the low
      half holds the value and the high half zero. */
  lemma SplitHalves(low: seq<byte>, high: seq<byte>, v: nat)
    requires |low| == 4 && |high| == 4 && v < TwoTo32
    requires low + high == ToLE(v, 8)
    ensures FromLE(low) == v && FromLE(high) == 0
  {
    PowersOfTwo();
    FromLEAppend(low, high);
    FromToLE(v, 8);
    HighPartZero(FromLE(low), FromLE(high), v);
  }

  lemma HighPartZero(a: nat, b: nat, v: nat)
    requires a + 0x1_0000_0000 * b == v < 0x1_0000_0000
    ensures a == v && b == 0
  {
  }

  /** In RAID mode the patch after the first-sector pointers writes the
      opcode bytes `CD 18` at the offset stored in `raidpatch`. */
  lemma RaidPatchPosition(content: seq<byte>, m: nat, sectors: seq<nat>, raidMode: bool,
                          subdir: Option<string>, subvol: Option<string>)
    requires FindMagic(content) == Some(m) && HeaderFits(content, m, sectors, raidMode)
    requires raidMode
    ensures var r := CalculatePatches(content, sectors, raidMode, subdir, subvol);
            r[PointerCount(sectors, raidMode) - 1]
              == Patch(ReadLE16(content, EpaBase(content, m) + RaidPatchField), [0xCD, 0x18])
  {
    RaidAt(CalculatePatches(content, sectors, raidMode, subdir, subvol), Groups(content, m, sectors, raidMode, subdir, subvol));
    assert |Groups(content, m, sectors, raidMode, subdir, subvol).pointers| == PointerCount(sectors, raidMode) - 1;
  }

  /** The size fields of a layout, one by one, in a list made of the
      layout and one final patch. */
  lemma SizesAtEach(r: seq<Patch>, g: Layout, t: nat)
    requires |r| > 0 && r[..|r| - 1] == Flat(g)
    requires t == |g.pointers| + |g.raid| && |g.sizes| == 3
    ensures t + 2 < |r| && r[t] == g.sizes[0] && r[t + 1] == g.sizes[1] && r[t + 2] == g.sizes[2]
  {
    SizesAt(r, g);
    ElementOf(r, g.sizes, t, 0);
    ElementOf(r, g.sizes, t, 1);
    ElementOf(r, g.sizes, t, 2);
  }

  /** After the pointers come the three size fields of the patch area: the
      data-sector count `ceil(len/512)` as 16 bits at offset 8, the ADV
      sector count 2 as 16 bits at offset 10, and the number of whole
      dwords `len/4` as 32 bits at offset 12. */
  lemma SizeFieldPatches(content: seq<byte>, m: nat, sectors: seq<nat>, raidMode: bool,
                         subdir: Option<string>, subvol: Option<string>)
    requires FindMagic(content) == Some(m) && HeaderFits(content, m, sectors, raidMode)
    ensures var r := CalculatePatches(content, sectors, raidMode, subdir, subvol);
            var t := PointerCount(sectors, raidMode);
            && t + 2 < |r|
            && r[t].offset == m + DataSectorsField && |r[t].data| == 2
            && |content| <= FromLE(r[t].data) * SectorSize < |content| + SectorSize
            && r[t + 1].offset == m + AdvSectorsField && |r[t + 1].data| == 2
            && FromLE(r[t + 1].data) == AdvSectors
            && r[t + 2].offset == m + DwordsField && |r[t + 2].data| == 4
            && FromLE(r[t + 2].data) * 4 <= |content| < FromLE(r[t + 2].data) * 4 + 4
  {
    SizesAtEach(CalculatePatches(content, sectors, raidMode, subdir, subvol), Groups(content, m, sectors, raidMode, subdir, subvol),
                PointerCount(sectors, raidMode));
  }

  /** With a non-empty sector list the sector map is the extent table
      followed by the ADV pointers. The table holds one 10-byte record per
      extent, `secptroffset + 10*i`, for the first `min(#extents, secptrcnt)`
      extents of the greedy compression of the sectors after the first;
      those extents are the unique greedy table of that sector list. */
  lemma SectorMapLayout(content: seq<byte>, epa: nat, sectors: seq<nat>, nsect: nat)
    requires epa + RaidPatchField <= |content|
    requires nsect >= 3 && |sectors| > 0
    requires SectorsFit(sectors, nsect)
    ensures var input := ExtentInput(sectors, nsect);
            var es := Compress(input);
            var cap := ReadLE16(content, epa + SecPtrCntField);
            var k := if |es| <= cap then |es| else cap;
            var r := SectorMapPatches(content, epa, sectors, nsect);
            && IsGreedyTable(input, es)
            && |r| >= k
            && (forall i :: 0 <= i < k ==>
                  && r[i].offset == ReadLE16(content, epa + SecPtrOffsetField) + ExtentRecordSize * i
                  && |r[i].data| == ExtentRecordSize
                  && Unpack(r[i].data) == es[i])
            && r[k..] == AdvPatches(ReadLE16(content, epa + AdvPtrOffsetField), sectors, nsect)
  {
    var input := ExtentInput(sectors, nsect);
    CompressIsGreedyTable(input);
    CompressExtentsWellFormed(input);
    ConcatParts(ExtentRecords(ReadLE16(content, epa + SecPtrOffsetField), ReadLE16(content, epa + SecPtrCntField), Compress(input)),
                AdvPatches(ReadLE16(content, epa + AdvPtrOffsetField), sectors, nsect));
  }

  lemma ConcatParts(a: seq<Patch>, b: seq<Patch>)
    ensures (a + b)[..|a|] == a && (a + b)[|a|..] == b
  {
  }

  /** The sector map starts right after the three size fields. */
  lemma SectorMapPosition(content: seq<byte>, m: nat, sectors: seq<nat>, raidMode: bool,
                          subdir: Option<string>, subvol: Option<string>)
    requires FindMagic(content) == Some(m) && HeaderFits(content, m, sectors, raidMode)
    ensures var mp := SectorMapPatches(content, EpaBase(content, m), sectors, DataSectors(|content|) + AdvSectors);
            var r := CalculatePatches(content, sectors, raidMode, subdir, subvol);
            var t := PointerCount(sectors, raidMode) + 3;
            && t + |mp| < |r|
            && r[t..t + |mp|] == mp
  {
    GroupsShape(content, m, sectors, raidMode, subdir, subvol);
    SectorMapAt(CalculatePatches(content, sectors, raidMode, subdir, subvol), Groups(content, m, sectors, raidMode, subdir, subvol),
                PointerCount(sectors, raidMode) + 3);
  }

  /** The group sizes before the sector map, and the sector map itself. */
  lemma GroupsShape(content: seq<byte>, m: nat, sectors: seq<nat>, raidMode: bool,
                    subdir: Option<string>, subvol: Option<string>)
    requires HeaderFits(content, m, sectors, raidMode)
    ensures var g := Groups(content, m, sectors, raidMode, subdir, subvol);
            && |g.pointers| + |g.raid| + |g.sizes| == PointerCount(sectors, raidMode) + 3
            && g.sectorMap == SectorMapPatches(content, EpaBase(content, m), sectors, DataSectors(|content|) + AdvSectors)
  {
  }

  /** The subvolume string patch (present only when the subvolume is
      given, non-empty and fits its field) is the last one before the
      checksum. */
  lemma SubvolPatchLast(content: seq<byte>, m: nat, sectors: seq<nat>, raidMode: bool,
                        subdir: Option<string>, subvol: Option<string>)
    requires FindMagic(content) == Some(m) && HeaderFits(content, m, sectors, raidMode)
    ensures var epa := EpaBase(content, m);
            var v := StringPatches(content, epa + SubvolOffsetField, epa + SubvolLenField, subvol);
            var r := CalculatePatches(content, sectors, raidMode, subdir, subvol);
            && |v| < |r|
            && r[|r| - 1 - |v|..|r| - 1] == v
  {
    SubvolAt(CalculatePatches(content, sectors, raidMode, subdir, subvol), Groups(content, m, sectors, raidMode, subdir, subvol));
  }

  /** Among the patches before the checksum, the directory string patch
      comes right before the subvolume string patch, which is the last
      (each present only when its string is given, non-empty and fits its
      field). */
  lemma DirPatchPosition(content: seq<byte>, m: nat, sectors: seq<nat>, raidMode: bool,
                         subdir: Option<string>, subvol: Option<string>)
    requires HeaderFits(content, m, sectors, raidMode)
    ensures var epa := EpaBase(content, m);
            var d := StringPatches(content, epa + DirOffsetField, epa + DirLenField, subdir);
            var v := StringPatches(content, epa + SubvolOffsetField, epa + SubvolLenField, subvol);
            var body := BodyPatches(content, m, sectors, raidMode, subdir, subvol);
            && |d| + |v| <= |body|
            && body[|body| - |v| - |d|..|body| - |v|] == d
  {
    GroupsStrings(content, m, sectors, raidMode, subdir, subvol);
    DirAt(Groups(content, m, sectors, raidMode, subdir, subvol));
  }

  lemma DirAt(g: Layout)
    ensures var n, d, v := |Flat(g)|, |g.dir|, |g.subvol|;
            d + v <= n && Flat(g)[n - v - d..n - v] == g.dir
  {
    var n, d, v := |Flat(g)|, |g.dir|, |g.subvol|;
    assert Flat(g) == (g.pointers + g.raid + g.sizes + g.sectorMap) + g.dir + g.subvol;
  }

  /** The two string groups of a layout. */
  lemma GroupsStrings(content: seq<byte>, m: nat, sectors: seq<nat>, raidMode: bool,
                      subdir: Option<string>, subvol: Option<string>)
    requires HeaderFits(content, m, sectors, raidMode)
    ensures var g, epa := Groups(content, m, sectors, raidMode, subdir, subvol), EpaBase(content, m);
            && g.dir == StringPatches(content, epa + DirOffsetField, epa + DirLenField, subdir)
            && g.subvol == StringPatches(content, epa + SubvolOffsetField, epa + SubvolLenField, subvol)
  {
  }
}
