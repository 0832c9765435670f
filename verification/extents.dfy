/**
 The Syslinux sector-extent table and the greedy compressor that builds it
 (`SyslinuxExtent` and `Patcher._generate_extents`). The loader copies its
 own body sector by sector starting at memory address 0x8000; the table
 tells it which disk runs to read, one real-mode copy per run.
 */
module Extents {
  import opened Bytes

  const SectorSize: nat := 512
  /** Memory address at which the loader starts copying its body. */
  const LoadAddress: nat := 0x8000
  /** An extent's byte span must stay below 64 KiB. */
  const SpanLimit: nat := 65536
  /** Largest sector count whose span stays below `SpanLimit`: 127 * 512 < 65536 <= 128 * 512. */
  const MaxExtentSectors: nat := 127
  /** Size of one packed `struct syslinux_extent`. */
  const ExtentRecordSize: nat := 10

  /** One contiguous run of sectors: start LBA and sector count. */
  datatype Extent = Extent(lba: nat, len: nat)

  // ---------------------------------------------------------------------
  // Wire format: 8-byte LBA followed by 2-byte length, no padding.
  // ---------------------------------------------------------------------

  predicate Packable(e: Extent) {
    e.lba < TwoTo64 && e.len < TwoTo16
  }

  /** `SyslinuxExtent.pack`: `struct.pack('<QH', lba, length)`. */
  function Pack(e: Extent): (bs: seq<byte>)
    requires Packable(e)
    ensures |bs| == ExtentRecordSize
    ensures FromLE(bs[..8]) == e.lba && FromLE(bs[8..]) == e.len
  {
    PowersOfTwo();
    var lo := ToLE(e.lba, 8);
    var hi := ToLE(e.len, 2);
    FromToLE(e.lba, 8);
    FromToLE(e.len, 2);
    assert (lo + hi)[..8] == lo && (lo + hi)[8..] == hi;
    lo + hi
  }

  /** Reads a packed record back. */
  function Unpack(bs: seq<byte>): (e: Extent)
    requires |bs| == ExtentRecordSize
    ensures Packable(e)
  {
    PowersOfTwo();
    Extent(FromLE(bs[..8]), FromLE(bs[8..]))
  }

  /** Decoding a packed extent returns the original pair. */
  lemma UnpackPack(e: Extent)
    requires Packable(e)
    ensures Unpack(Pack(e)) == e
  {
  }

  /** Every 10-byte record is the packing of the extent it decodes to, so
      the encoding has no padding and no redundant bytes. */
  lemma PackUnpack(bs: seq<byte>)
    requires |bs| == ExtentRecordSize
    ensures Pack(Unpack(bs)) == bs
  {
    PowersOfTwo();
    ToFromLE(bs[..8]);
    ToFromLE(bs[8..]);
    assert bs == bs[..8] + bs[8..];
  }

  // ---------------------------------------------------------------------
  // Meaning of an extent list: the sector sequence it covers.
  // ---------------------------------------------------------------------

  /** The sectors `lba, lba+1, …, lba+len-1`. */
  function Expand(e: Extent): (s: seq<nat>)
    ensures |s| == e.len
    ensures forall k :: 0 <= k < |s| ==> s[k] == e.lba + k
  {
    seq(e.len, k => e.lba + k)
  }

  /** Concatenation of the expansions, in table order. */
  function Flatten(es: seq<Extent>): seq<nat>
  {
    if |es| == 0 then [] else Expand(es[0]) + Flatten(es[1..])
  }

  /** Total sector count of an extent list. */
  function SumLengths(es: seq<Extent>): nat
  {
    if |es| == 0 then 0 else es[0].len + SumLengths(es[1..])
  }

  lemma {:induction false} FlattenLength(es: seq<Extent>)
    ensures |Flatten(es)| == SumLengths(es)
  {
    if |es| > 0 {
      FlattenLength(es[1..]);
    }
  }

  // ---------------------------------------------------------------------
  // The greedy merge, as a fold over the sectors after the first.
  // ---------------------------------------------------------------------

  /** `((a ^ b) & 0xffff0000) == 0` on non-negative integers: bits 16 to 31
      of `a` and `b` coincide (higher bits are masked away). */
  predicate SegmentBitsAgree(a: int, b: int)
  {
    (a / 0x1_0000) % 0x1_0000 == (b / 0x1_0000) % 0x1_0000
  }

  /** What the merge decision reduces to: the run grows exactly when the
      next sector is the one right after it and the run is not yet at the
      127-sector size limit. */
  predicate CanExtend(open: Extent, sect: nat)
  {
    sect == open.lba + open.len && open.len < MaxExtentSectors
  }

  /** At the test, `addr == base + len*512` and `addr` is 512-aligned, so
      the end address `base + xbytes - 1` equals `addr + 511`, which lies
      in the same 64 KiB segment as `addr`: the boundary test always passes. */
  lemma BoundaryCheckAlwaysPasses(addr: nat, base: nat, len: nat, slot: nat)
    requires addr == base + len * SectorSize
    requires addr == slot * SectorSize
    ensures SegmentBitsAgree(addr, base + (len + 1) * SectorSize - 1)
  {
    assert base + (len + 1) * SectorSize - 1 == addr + 511;
    SectorInSegment(slot);
    var q := addr / 0x1_0000;
    assert addr == q * 0x1_0000 + addr % 0x1_0000;
    assert (addr + 511) / 0x1_0000 == q;
  }

  /** A 512-aligned address lies at least 512 bytes below the end of its 64 KiB segment. */
  lemma SectorInSegment(slot: nat)
    ensures (slot * SectorSize) % 0x1_0000 + 511 < 0x1_0000
  {
    var a, b := slot / 128, slot % 128;
    assert slot * SectorSize == a * 0x1_0000 + b * SectorSize;
    assert b * SectorSize <= 127 * SectorSize;
    ModOfSplit(slot * SectorSize, a, b * SectorSize);
  }

  lemma ModOfSplit(x: int, a: int, c: int)
    requires x == a * 0x1_0000 + c && 0 <= c < 0x1_0000
    ensures x % 0x1_0000 == c
  {
  }

  /** The source's three-part merge test at a point where the simulated
      load address is `addr == base + len*512` reduces to `CanExtend`: the
      size test `(len+1)*512 < 65536` is `len < 127` and the boundary test
      always passes. */
  lemma MergeTestIsCanExtend(addr: nat, base: nat, lba: nat, len: nat, sect: nat, slot: nat)
    requires addr == base + len * SectorSize
    requires addr == slot * SectorSize
    ensures (&& sect == lba + len
             && (len + 1) * SectorSize < SpanLimit
             && SegmentBitsAgree(addr, base + (len + 1) * SectorSize - 1))
        == CanExtend(Extent(lba, len), sect)
  {
    BoundaryCheckAlwaysPasses(addr, base, len, slot);
  }

  /** The greedy merge continued from an open run over the remaining sectors:
      the run is closed when the next sector cannot extend it. */
  function Greedy(rest: seq<nat>, open: Extent): (r: seq<Extent>)
    requires 1 <= open.len <= MaxExtentSectors
    ensures |r| >= 1 && r[0].lba == open.lba && r[0].len >= open.len
    decreases |rest|
  {
    if |rest| == 0 then [open]
    else if CanExtend(open, rest[0]) then Greedy(rest[1..], Extent(open.lba, open.len + 1))
    else [open] + Greedy(rest[1..], Extent(rest[0], 1))
  }

  /** Every run the merge emits starts at the open run's sector or at a
      sector of the remaining input. */
  lemma {:induction false} GreedyStartsInInput(rest: seq<nat>, open: Extent)
    requires 1 <= open.len <= MaxExtentSectors
    ensures forall e <- Greedy(rest, open) :: 1 <= e.len <= MaxExtentSectors && (e.lba == open.lba || e.lba in rest)
    decreases |rest|
  {
    if |rest| > 0 {
      if CanExtend(open, rest[0]) {
        GreedyStartsInInput(rest[1..], Extent(open.lba, open.len + 1));
      } else {
        GreedyStartsInInput(rest[1..], Extent(rest[0], 1));
      }
      assert forall x <- rest[1..] :: x in rest;
    }
  }

  /** Every extent of the table has 1 to 127 sectors and starts at one of
      the input sectors, so it fits the packed record whenever the input
      sectors fit in 64 bits. */
  lemma CompressExtentsWellFormed(sectors: seq<nat>)
    ensures forall e <- Compress(sectors) :: 1 <= e.len <= MaxExtentSectors && e.lba in sectors
  {
    if |sectors| > 0 {
      GreedyStartsInInput(sectors[1..], Extent(sectors[0], 1));
      assert forall x <- sectors[1..] :: x in sectors;
    }
  }

  /** One step of the merge: the next sector either grows the open run or
      closes it and opens a new one-sector run. */
  lemma GreedyStep(rest: seq<nat>, open: Extent)
    requires 1 <= open.len <= MaxExtentSectors && |rest| > 0
    ensures CanExtend(open, rest[0]) ==>
      Greedy(rest, open) == Greedy(rest[1..], Extent(open.lba, open.len + 1))
    ensures !CanExtend(open, rest[0]) ==>
      Greedy(rest, open) == [open] + Greedy(rest[1..], Extent(rest[0], 1))
  {
  }

  /** `Patcher._generate_extents` as a function: empty input gives no
      extents; otherwise the first sector opens a run of length 1. */
  function Compress(sectors: seq<nat>): (r: seq<Extent>)
    ensures |sectors| == 0 <==> r == []
  {
    if |sectors| == 0 then [] else Greedy(sectors[1..], Extent(sectors[0], 1))
  }

  /** How the merge state (closed extents plus open run) evolves when the
      sector at index `i` is consumed. */
  lemma MergeStep(sectors: seq<nat>, i: nat, closed: seq<Extent>, open: Extent)
    requires 1 <= open.len <= MaxExtentSectors && i < |sectors|
    requires closed + Greedy(sectors[i..], open) == Compress(sectors)
    ensures CanExtend(open, sectors[i]) ==>
      closed + Greedy(sectors[i + 1..], Extent(open.lba, open.len + 1)) == Compress(sectors)
    ensures !CanExtend(open, sectors[i]) ==>
      (closed + [open]) + Greedy(sectors[i + 1..], Extent(sectors[i], 1)) == Compress(sectors)
  {
    GreedyStep(sectors[i..], open);
    assert sectors[i..][1..] == sectors[i + 1..];
    if !CanExtend(open, sectors[i]) {
      var g := Greedy(sectors[i + 1..], Extent(sectors[i], 1));
      assert (closed + [open]) + g == closed + ([open] + g);
    }
  }

  /** `Patcher._generate_extents`, statement for statement, including the
      simulated load address and the 64 KiB boundary test. */
  method GenerateExtents(sectors: seq<nat>) returns (extents: seq<Extent>)
    ensures extents == Compress(sectors)
  {
    extents := [];
    if |sectors| == 0 {
      return;
    }
    var addr: nat := LoadAddress;
    var base: nat := addr;
    var lba: nat := sectors[0];
    var length: nat := 1;
    addr := addr + SectorSize;
    var i := 1;
    while i < |sectors|
      invariant 1 <= i <= |sectors|
      invariant 1 <= length <= MaxExtentSectors
      invariant addr == base + length * SectorSize
      invariant addr == (LoadAddress / SectorSize + i) * SectorSize
      invariant extents + Greedy(sectors[i..], Extent(lba, length)) == Compress(sectors)
    {
      var sect := sectors[i];
      var xbytes := (length + 1) * SectorSize;
      var isContiguous := sect == lba + length;
      var sizeOk := xbytes < SpanLimit;
      var boundaryOk := SegmentBitsAgree(addr, base + xbytes - 1);
      MergeTestIsCanExtend(addr, base, lba, length, sect, LoadAddress / SectorSize + i);
      MergeStep(sectors, i, extents, Extent(lba, length));
      if isContiguous && sizeOk && boundaryOk {
        length := length + 1;
      } else {
        extents := extents + [Extent(lba, length)];
        base := addr;
        lba := sect;
        length := 1;
      }
      addr := addr + SectorSize;
      i := i + 1;
    }
    assert sectors[i..] == [];
    if length > 0 {
      extents := extents + [Extent(lba, length)];
    }
  }

  // ---------------------------------------------------------------------
  // Properties of the compressor.
  // ---------------------------------------------------------------------

  /** Expanding the extents produced from an open run gives the open run's
      sectors followed by the remaining input. */
  lemma {:induction false} GreedyCovers(rest: seq<nat>, open: Extent)
    requires 1 <= open.len <= MaxExtentSectors
    ensures Flatten(Greedy(rest, open)) == Expand(open) + rest
    decreases |rest|
  {
    if |rest| == 0 {
      assert Flatten([open]) == Expand(open) + Flatten([]);
    } else if CanExtend(open, rest[0]) {
      var grown := Extent(open.lba, open.len + 1);
      GreedyCovers(rest[1..], grown);
      assert Expand(grown) == Expand(open) + [rest[0]];
      assert rest == [rest[0]] + rest[1..];
    } else {
      var next := Extent(rest[0], 1);
      GreedyCovers(rest[1..], next);
      var r := [open] + Greedy(rest[1..], next);
      assert r[1..] == Greedy(rest[1..], next);
      assert Expand(next) == [rest[0]];
      assert rest == [rest[0]] + rest[1..];
    }
  }

  /** The extents partition the input in order: expanding each extent and
      concatenating reproduces the sector list exactly. */
  lemma CompressPartitions(sectors: seq<nat>)
    ensures Flatten(Compress(sectors)) == sectors
  {
    if |sectors| > 0 {
      GreedyCovers(sectors[1..], Extent(sectors[0], 1));
      assert Expand(Extent(sectors[0], 1)) == [sectors[0]];
      assert sectors == [sectors[0]] + sectors[1..];
    }
  }

  /** Hence the extent lengths add up to the number of input sectors. */
  lemma CompressPreservesCount(sectors: seq<nat>)
    ensures SumLengths(Compress(sectors)) == |sectors|
  {
    CompressPartitions(sectors);
    FlattenLength(Compress(sectors));
  }

  /** A new extent starts only where the previous one could not grow: the
      next extent does not continue it, or it is already 127 sectors long. */
  predicate Maximal(es: seq<Extent>)
  {
    forall i :: 0 <= i < |es| - 1 ==>
      es[i + 1].lba != es[i].lba + es[i].len || es[i].len == MaxExtentSectors
  }

  lemma {:induction false} GreedyMaximal(rest: seq<nat>, open: Extent)
    requires 1 <= open.len <= MaxExtentSectors
    ensures Maximal(Greedy(rest, open))
    decreases |rest|
  {
    if |rest| > 0 {
      if CanExtend(open, rest[0]) {
        GreedyMaximal(rest[1..], Extent(open.lba, open.len + 1));
      } else {
        var tail := Greedy(rest[1..], Extent(rest[0], 1));
        GreedyMaximal(rest[1..], Extent(rest[0], 1));
        var r := [open] + tail;
        forall i | 0 <= i < |r| - 1
          ensures r[i + 1].lba != r[i].lba + r[i].len || r[i].len == MaxExtentSectors
        {
          if i > 0 {
            assert r[i] == tail[i - 1] && r[i + 1] == tail[i];
          }
        }
      }
    }
  }

  /** A table is a valid greedy compression of `sectors` when it partitions
      them in order, every extent has 1 to 127 sectors, and it is maximal. */
  predicate IsGreedyTable(sectors: seq<nat>, es: seq<Extent>)
  {
    && Flatten(es) == sectors
    && (forall e <- es :: 1 <= e.len <= MaxExtentSectors)
    && Maximal(es)
  }

  lemma CompressIsGreedyTable(sectors: seq<nat>)
    ensures IsGreedyTable(sectors, Compress(sectors))
  {
    CompressPartitions(sectors);
    CompressExtentsWellFormed(sectors);
    if |sectors| > 0 {
      GreedyMaximal(sectors[1..], Extent(sectors[0], 1));
    }
  }

  /** The first `e.len` sectors of a flattened table form the first extent. */
  lemma FlattenHead(es: seq<Extent>)
    requires |es| > 0
    ensures |Flatten(es)| >= es[0].len
    ensures Flatten(es)[..es[0].len] == Expand(es[0])
    ensures Flatten(es)[es[0].len..] == Flatten(es[1..])
  {
  }

  /** A table whose extents are all non-empty covers no sectors only when it is empty. */
  lemma {:induction false} FlattenEmpty(es: seq<Extent>)
    requires forall e <- es :: e.len >= 1
    ensures |Flatten(es)| == 0 <==> |es| == 0
  {
    if |es| > 0 {
      assert es[0] in es;
      assert |Flatten(es)| >= |Expand(es[0])|;
    }
  }

  /** Dropping the first extent of a valid table leaves a valid table for
      the sectors after it. */
  lemma TailIsGreedyTable(sectors: seq<nat>, a: seq<Extent>)
    requires IsGreedyTable(sectors, a) && |a| > 0
    ensures |sectors| >= a[0].len
    ensures IsGreedyTable(sectors[a[0].len..], a[1..])
  {
    FlattenHead(a);
    forall i | 0 <= i < |a[1..]| - 1
      ensures a[1..][i + 1].lba != a[1..][i].lba + a[1..][i].len || a[1..][i].len == MaxExtentSectors
    {
      assert a[1..][i] == a[i + 1] && a[1..][i + 1] == a[i + 2];
    }
    assert forall e <- a[1..] :: e in a;
  }

  /** In a valid table the extent after the first one starts at the
      sector right after the first extent's sectors. */
  lemma NextStartsAfterHead(sectors: seq<nat>, a: seq<Extent>)
    requires IsGreedyTable(sectors, a) && |a| > 0
    requires |sectors| > a[0].len
    ensures |a| > 1 && a[1].lba == sectors[a[0].len]
  {
    TailIsGreedyTable(sectors, a);
    FlattenEmpty(a[1..]);
    FlattenHead(a[1..]);
    assert a[1..][0] == a[1];
  }

  /** In a valid table the sectors covered by the first extent are consecutive. */
  lemma HeadIsConsecutive(sectors: seq<nat>, b: seq<Extent>, k: nat)
    requires IsGreedyTable(sectors, b) && |b| > 0
    requires k < b[0].len
    ensures k < |sectors| && sectors[k] == sectors[0] + k
  {
    FlattenHead(b);
  }

  /** Of two valid tables for the same sectors, neither closes its first
      extent before the other: the sector after the shorter first extent
      continues it, which maximality forbids below 127 sectors. */
  lemma HeadNotShorter(sectors: seq<nat>, a: seq<Extent>, b: seq<Extent>)
    requires IsGreedyTable(sectors, a) && IsGreedyTable(sectors, b)
    requires |a| > 0 && |b| > 0
    ensures a[0].len >= b[0].len
  {
    if a[0].len < b[0].len {
      assert b[0] in b;
      HeadIsConsecutive(sectors, b, a[0].len);
      FlattenHead(a);
      NextStartsAfterHead(sectors, a);
      assert false;
    }
  }

  /** At most one table satisfies `IsGreedyTable`: the greedy compression
      is the only valid table for its input. */
  lemma {:induction false} GreedyTableUnique(sectors: seq<nat>, a: seq<Extent>, b: seq<Extent>)
    requires IsGreedyTable(sectors, a) && IsGreedyTable(sectors, b)
    ensures a == b
    decreases |sectors|
  {
    FlattenEmpty(a);
    FlattenEmpty(b);
    if |sectors| > 0 {
      HeadsAgree(sectors, a, b);
      TailIsGreedyTable(sectors, a);
      TailIsGreedyTable(sectors, b);
      GreedyTableUnique(sectors[a[0].len..], a[1..], b[1..]);
      assert a == [a[0]] + a[1..] && b == [b[0]] + b[1..];
    }
  }

  /** Two valid tables for a non-empty sector list start with the same extent. */
  lemma HeadsAgree(sectors: seq<nat>, a: seq<Extent>, b: seq<Extent>)
    requires IsGreedyTable(sectors, a) && IsGreedyTable(sectors, b)
    requires |a| > 0 && |b| > 0
    ensures a[0] == b[0]
  {
    HeadNotShorter(sectors, a, b);
    HeadNotShorter(sectors, b, a);
    assert a[0] in a;
    FlattenHead(a);
    FlattenHead(b);
    assert a[0].lba == Expand(a[0])[0] == sectors[0] == Expand(b[0])[0] == b[0].lba;
  }

  /** The compression is characterised by the three properties: any valid
      greedy table for `sectors` is `Compress(sectors)`. */
  lemma GreedyTableIsCompress(sectors: seq<nat>, es: seq<Extent>)
    requires IsGreedyTable(sectors, es)
    ensures es == Compress(sectors)
  {
    CompressIsGreedyTable(sectors);
    GreedyTableUnique(sectors, es, Compress(sectors));
  }

  /** The sectors `start, start+1, …, start+n-1`. */
  function Contiguous(start: nat, n: nat): (s: seq<nat>)
    ensures |s| == n
    ensures forall k :: 0 <= k < n ==> s[k] == start + k
  {
    seq(n, k => start + k)
  }

  lemma {:induction false} GreedyOnContiguous(lba: nat, len: nat, m: nat)
    requires 1 <= len && len + m <= MaxExtentSectors
    ensures Greedy(Contiguous(lba + len, m), Extent(lba, len)) == [Extent(lba, len + m)]
    decreases m
  {
    if m > 0 {
      var rest := Contiguous(lba + len, m);
      assert rest[1..] == Contiguous(lba + len + 1, m - 1);
      GreedyOnContiguous(lba, len + 1, m - 1);
    }
  }

  /** A contiguous input of 1 to 127 sectors compresses to exactly one extent. */
  lemma ContiguousIsOneExtent(start: nat, n: nat)
    requires 1 <= n <= MaxExtentSectors
    ensures Compress(Contiguous(start, n)) == [Extent(start, n)]
  {
    var s := Contiguous(start, n);
    assert s[1..] == Contiguous(start + 1, n - 1);
    GreedyOnContiguous(start, 1, n - 1);
  }

  /** 128 contiguous sectors already need two extents: the size limit splits them 127 + 1. */
  lemma ContiguousSplitsAtLimit(start: nat)
    ensures Compress(Contiguous(start, MaxExtentSectors + 1))
         == [Extent(start, MaxExtentSectors), Extent(start + MaxExtentSectors, 1)]
  {
    var s := Contiguous(start, MaxExtentSectors + 1);
    assert s[1..][..MaxExtentSectors - 1] == Contiguous(start + 1, MaxExtentSectors - 1);
    GreedyOnContiguous(start, 1, MaxExtentSectors - 1);
    GreedySplit(s[1..], start);
  }

  lemma GreedySplit(rest: seq<nat>, start: nat)
    requires |rest| == MaxExtentSectors
    requires forall k :: 0 <= k < |rest| ==> rest[k] == start + 1 + k
    ensures Greedy(rest, Extent(start, 1))
         == [Extent(start, MaxExtentSectors), Extent(start + MaxExtentSectors, 1)]
  {
    GreedyPrefix(rest, start, 1);
  }

  lemma {:induction false} GreedyPrefix(rest: seq<nat>, start: nat, len: nat)
    requires 1 <= len <= MaxExtentSectors
    requires |rest| == MaxExtentSectors + 1 - len
    requires forall k :: 0 <= k < |rest| ==> rest[k] == start + len + k
    ensures Greedy(rest, Extent(start, len))
         == [Extent(start, MaxExtentSectors), Extent(start + MaxExtentSectors, 1)]
    decreases |rest|
  {
    if len < MaxExtentSectors {
      GreedyPrefix(rest[1..], start, len + 1);
    } else {
      assert rest[1..] == [];
    }
  }
}
