# Syslinux `ldlinux.sys` patching in pylibrufus, modelled in Dafny

pylibrufus makes a USB stick bootable with Syslinux. It does this by
copying a generic `ldlinux.sys` image to the stick and then overwriting
a few fields of the copy so that the boot loader can find its own body
on disk. This project models the pure core of that step:

- **`SyslinuxExtent.pack`** is the packed 10-byte extent record: an
  8-byte LBA and a 2-byte sector count, little-endian. It is modelled in
  `Extents.Pack`.
- **`Patcher._generate_extents`** is the greedy compressor. It turns the
  image's sector list into runs of consecutive sectors. It follows the
  real-mode load address from 0x8000 and stops a run at 64 KiB.
  - `Extents.GenerateExtents` is the loop, statement for statement.
  - `Extents.Compress` is its functional reference.
- **`Patcher.calculate_patches`** is modelled in `Patcher.CalculatePatches`.
  - It scans for the patch-area magic number.
  - It follows the `epaoffset` indirection to the extended patch area.
  - It emits the ordered (offset, bytes) overwrites:
    1. the first sector's LBA halves;
    2. the RAID opcode;
    3. the three size fields;
    4. the extent table;
    5. the two ADV (auxiliary data vector) sector pointers;
    6. the directory and subvolume strings;
    7. finally the checksum, computed over a scratch copy with every
       earlier in-range patch applied.
- **The pure part of `get_file_physical_sectors`** (Linux FIEMAP) is
  modelled in `LinuxSectors.FlattenMapped`. It expands the extent
  records of the ioctl's reply into the 512-byte sector list that the
  patcher consumes.

Modules:

| module | file | contents |
|---|---|---|
| `Bytes` | `bytes.dfy` | the `byte` type, little-endian encoding and decoding, and their round trips |
| `Utf8` | `utf8.dfy` | `str.encode('utf-8')` and its decoder |
| `Extents` | `extents.dfy` | the extent record, the greedy compressor and its characterisation |
| `Patcher` | `patcher.dfy` | the magic scan, the patch groups, the checksum, `calculate_patches` |
| `LinuxSectors` | `linux_sectors.dfy` | FIEMAP records to the sector list |
| `Scenario` | `scenario.dfy` | the repository's patcher test image, plus the edge of the magic scan |

Python's implicit failures are preconditions. `struct.unpack` raises on
a short slice, and `struct.pack` raises on a value too wide for its
field. `Patcher.WellFormed` collects every range the source relies on
without checking it.

The model follows the code in two places:

- **The 64 KiB boundary test.** The source's comments describe it as
  keeping a run from crossing a 64 KiB boundary between its start
  `base` and its end. The code compares the *next load address* `addr`
  with `base + xbytes - 1`, and that is what is modelled
  (`Extents.SegmentBitsAgree`). `Extents.BoundaryCheckAlwaysPasses`
  proves that this comparison is always true. So the extent limit is
  really the size test alone: at most 127 sectors.
- **The magic scan.** It runs over `range(0, len - 4)`, so a magic
  number whose word starts at `len - 4` is not found. The source's
  comment at patcher.py:111-112 gives a different bound, `i <= dw` with
  `dw = len >> 2`; the code's bound is the one modelled.

## Model

| member | source | states |
|---|---|---|
| Extents.Pack | pylibrufus/patcher.py:20-22 | the record is 10 bytes: the first 8 decode little-endian to the LBA, the last 2 to the length |
| Extents.UnpackPack | pylibrufus/patcher.py:20-22 | decoding a packed extent returns the same (lba, length) pair |
| Extents.PackUnpack | pylibrufus/patcher.py:20-22 | every 10-byte string is the packing of the extent it decodes to, so the format has no padding or slack |
| Extents.GenerateExtents | pylibrufus/patcher.py:28-87 | the loop, including the load-address bookkeeping and the three-part merge test, returns exactly the greedy compression `Compress(sectors)` |
| Extents.MergeTestIsCanExtend | pylibrufus/patcher.py:59-74 | at every test, "contiguous and `xbytes < 65536` and boundary ok" holds exactly when the sector continues the run and the run has fewer than 127 sectors |
| Extents.BoundaryCheckAlwaysPasses | pylibrufus/patcher.py:65-72 | with `addr == base + len*512` and `addr` 512-aligned, `((addr ^ (base + xbytes - 1)) & 0xffff0000) == 0` always holds |
| Extents.Compress | pylibrufus/patcher.py:33-56 | the table is empty exactly when the sector list is empty |
| Extents.CompressPartitions | pylibrufus/patcher.py:58-85 | expanding the extents in order gives back the input sector list exactly: no sector lost, duplicated or reordered |
| Extents.CompressPreservesCount | pylibrufus/patcher.py:58-85 | the extent lengths add up to the number of input sectors |
| Extents.CompressExtentsWellFormed | pylibrufus/patcher.py:70-80 | every extent has 1 to 127 sectors and starts at one of the input sectors |
| Extents.GreedyMaximal | pylibrufus/patcher.py:74-80 | a run is closed only when the next extent does not continue it or it already has 127 sectors |
| Extents.CompressIsGreedyTable | pylibrufus/patcher.py:58-85 | the compression is a valid greedy table: it partitions the input, its lengths are 1..127, and it is maximal |
| Extents.GreedyTableUnique | pylibrufus/patcher.py:58-85 | two valid greedy tables for the same sector list are equal |
| Extents.GreedyTableIsCompress | pylibrufus/patcher.py:58-85 | any table that partitions the input, has lengths 1..127 and is maximal is the compressor's output, so the three properties characterise it |
| Extents.ContiguousIsOneExtent | pylibrufus/patcher.py:58-85 | n consecutive sectors, 1 <= n <= 127, give exactly one extent (start, n) |
| Extents.ContiguousSplitsAtLimit | pylibrufus/patcher.py:59-80 | 128 consecutive sectors give two extents: 127 sectors, then 1 |
| Patcher.MagicBytesEncodeMagic | pylibrufus/patcher.py:108 | the searched bytes are the 32-bit little-endian encoding of `LDLINUX_MAGIC` |
| Patcher.FindMagic | pylibrufus/patcher.py:107-121 | the result is the first 4-aligned offset `i` with `i + 4 < len` that holds the magic; there is no result exactly when no such offset exists |
| Patcher.DataSectors | pylibrufus/patcher.py:189 | `nsect - 2` is the ceiling of `len/512`: the least sector count covering the image |
| Patcher.SectorPointerPatches | pylibrufus/patcher.py:165-180 | with sectors given: two 4-byte patches at the offsets stored in `sect1ptr0` and `sect1ptr1`, which together are the 64-bit little-endian first sector; with none: no patch |
| Patcher.RaidPatches | pylibrufus/patcher.py:182-186 | in RAID mode, the bytes `CD 18` at the offset stored in `raidpatch`; otherwise nothing |
| Patcher.TotalsPatches | pylibrufus/patcher.py:188-194 | three patches at magic+8, +10 and +12 whose values are the covering sector count, 2, and the number of whole dwords |
| Patcher.ExtentInput | pylibrufus/patcher.py:217-247 | the sectors after the first, cut to at most `nsect - 3`, in order |
| Patcher.ExtentRecords | pylibrufus/patcher.py:249-256 | `min(#extents, secptrcnt)` records, 10 bytes apart from `secptroffset`, each decoding back to its extent |
| Patcher.AdvPatches | pylibrufus/patcher.py:263-277 | one 8-byte patch per present ADV sector, at `advptroffset` and `advptroffset + 8`, decoding to `sectors[nsect-2]` and `sectors[nsect-1]` |
| Patcher.StringPatches | pylibrufus/patcher.py:279-301 | a patch exists exactly when the string is given, non-empty, and its UTF-8 bytes plus NUL fit the stored length; it is those bytes and a final 0 at the stored offset |
| Patcher.ComputeChecksum | pylibrufus/patcher.py:325-330 | the wrapped subtraction loop yields a 32-bit value that, added to the sum of all whole words, gives the magic number mod 2^32 |
| Patcher.ChecksumPatch | pylibrufus/patcher.py:322-332 | the final patch is 4 bytes at magic+16, and its value complements the scratch copy's word sum to the magic number |
| Patcher.CalculatePatches | pylibrufus/patcher.py:89-334 | no patches exactly when the image has no accepted magic (this includes the empty image); otherwise the body groups in source order followed by a 4-byte checksum patch at magic+16 |
| Patcher.ChecksumOverPatchedCopy | pylibrufus/patcher.py:313-332 | the checksum patch complements the word sum of the copy with all earlier in-range patches applied in order and the checksum field zeroed |
| Patcher.ChecksumPatchMakesValid | pylibrufus/patcher.py:321-332 | writing the checksum over that copy makes the word sum equal the magic number mod 2^32 |
| Patcher.PatchedImageChecksumValid | pylibrufus/patcher.py:303-332 | applying every returned in-range patch in order yields an image whose 32-bit word sum is `LDLINUX_MAGIC` mod 2^32, which is the loader's integrity check |
| Patcher.FirstSectorPatches | pylibrufus/patcher.py:177-180 | the first two patches are the first sector's low and high halves, at the `sect1ptr0` and `sect1ptr1` offsets |
| Patcher.FirstSectorValue | pylibrufus/patcher.py:177-180 | for a first sector below 2^32, the `sect1ptr0` patch decodes to it and the `sect1ptr1` patch to 0 |
| Patcher.RaidPatchPosition | pylibrufus/patcher.py:182-186 | in RAID mode the patch right after the pointer patches is `CD 18` at the `raidpatch` offset |
| Patcher.SizeFieldPatches | pylibrufus/patcher.py:188-194 | right after those come the data-sector count (covering the image), the ADV count 2 and the whole-dword count, at magic+8, +10 and +12 |
| Patcher.SectorMapLayout | pylibrufus/patcher.py:217-277 | the extent table holds the first `min(#extents, secptrcnt)` extents of the unique greedy table of the extent input, and is followed by the ADV patches |
| Patcher.SectorMapPosition | pylibrufus/patcher.py:196-277 | the extent table and ADV patches come right after the three size fields |
| Patcher.DirPatchPosition | pylibrufus/patcher.py:279-301 | among the patches before the checksum, the directory patch (when present) sits right before the subvolume patch, which closes the list |
| Patcher.SubvolPatchLast | pylibrufus/patcher.py:291-301 | the subvolume patch, when present, is the last patch before the checksum |
| Utf8.DecodeEncode | pylibrufus/patcher.py:287 | decoding the UTF-8 encoding of a string gives back its scalar values, so the written bytes are faithful |
| Utf8.EncodeHasNoNul | pylibrufus/patcher.py:287 | a string without NUL encodes without zero bytes, so the appended NUL terminates it |
| Utf8.EncodeAscii | pylibrufus/patcher.py:299 | ASCII text encodes byte for byte |
| LinuxSectors.FlattenMapped | pylibrufus/linux_sectors.py:59-107 | the nested loops return nothing when the first query maps no extent; otherwise they return the concatenated sector runs of the first `fm_mapped_extents` records |
| LinuxSectors.FlattenRecordsLength | pylibrufus/linux_sectors.py:100-105 | the sector list has exactly the sum of `length // 512` over the records |
| LinuxSectors.RecordRun | pylibrufus/linux_sectors.py:86-105 | record j contributes `length // 512` ascending sectors from `physical // 512`, placed right after the runs of the records before it |
| LinuxSectors.SectorsComeFromRecords | pylibrufus/linux_sectors.py:86-105 | every returned sector lies in the sector range of some record |
| LinuxSectors.RecordTruncation | pylibrufus/linux_sectors.py:93-101 | a misaligned record is floored, not rejected: its run starts at the sector holding its first byte and covers only whole sectors; an aligned record is covered exactly |
| LinuxSectors.FlattenRecordsIsFlatten | pylibrufus/linux_sectors.py:100-105 | the sector list is the expansion of the records read as extents (`physical // 512`, `length // 512`) |
| LinuxSectors.OneRecordOneExtent | pylibrufus/linux_sectors.py:84-105 | a file mapped by one record of 1 to 127 whole sectors compresses to one extent equal to that record |
| Scenario.TestMagicAt128 | pylibrufus/tests.py:22-24 | in the test image the scan finds the patch area at 128 |
| Scenario.TestHeaderFits | pylibrufus/tests.py:22-43 | the test image meets every range demand, with its extended patch area at 512 |
| Scenario.TestFirstSectorPatch | pylibrufus/tests.py:45-59 | the test image yields patches; the one at offset 16 is 4 bytes decoding to 1000 and the one at 18 is 4 bytes decoding to 0 |
| Scenario.TestSectorMapSize | pylibrufus/tests.py:38-45 | the test image's sector map has exactly three patches: its one extent record and its two ADV pointers |
| Scenario.TestExtentRecord | pylibrufus/tests.py:38-45 | the test image's extent record sits at `secptroffset` = 600 and holds the extent (1001, 1) |
| Scenario.MagicInLastWordIgnored | pylibrufus/patcher.py:111-121 | a magic number in the image's last word alone is not found, so no patches result; with one more byte after it, it is found |

## Left out

- The file system and kernel calls of `get_file_physical_sectors` are
  parameters: the existence check, `os.open`/`os.close`, and both FIEMAP
  ioctls (linux_sectors.py lines 39-57, 62-78 and 109-110). The model
  takes the first call's mapped count, the second call's mapped count and
  its records as inputs. Each record keeps only `fe_physical` and
  `fe_length`, as natural numbers.
- LinuxSectors.FlattenMapped: the `IndexError` the source would raise
  when the second call reports more extents than the array's
  `extent_count` slots is not modelled. The precondition gives the
  records exactly `extent_count` slots and bounds the second count by it,
  which the kernel guarantees for FIEMAP.
- `PatchOperation.file_path` is carried through unchanged and affects
  nothing, so patches are (offset, bytes) pairs.
- Patcher.WellFormed: the source's exceptions are not modelled as error
  results.
  - The cases excluded are a short `struct.unpack` slice, a data-sector
    count of 2^16 or more, and a sector number outside 64 bits.
  - `SectorsFit` is slightly stronger than the source needs. It asks
    every sector below index `nsect` to fit 64 bits. The source packs
    only the first sector, the extents' start sectors up to the table
    capacity, and the two ADV sectors.
  - Negative sector numbers are outside the model, since sectors are
    `nat`.
- Utf8.Encode: Python strings holding lone surrogates make `encode`
  raise. A Dafny `char` is a Unicode scalar value, so that case has no
  counterpart.
- Scenario.TestFirstSectorPatch: the test loops over every patch at
  offset 16. The lemma states that the patch at index 0 is at offset 16
  with value 1000. It does not state that no later patch also writes at
  offset 16.
- The concrete ADV pointer values and the checksum value of the test
  image are not computed; the general lemmas cover them.
- `calculate_patches` is deterministic and returns a fresh list. In the
  model both facts are immediate from its being a function.
- The other parts of the repository are not part of this model: ISO
  analysis, resource management, the Windows bypass and the demo script.
