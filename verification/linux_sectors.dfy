/**
 The pure part of `get_file_physical_sectors`: turning the extent records
 of a FIEMAP query into the list of 512-byte sector numbers a file
 occupies, which is the sector list the patcher consumes. The ioctl itself
 is not modelled; its two results (the mapped-extent count of the first
 query and the records and count of the second) are parameters.
 */
module LinuxSectors {
  import opened Extents

  /** One FIEMAP extent record, reduced to the two fields the flattening
      reads: the byte offset on the device and the byte length. */
  datatype FiemapExtent = FiemapExtent(physical: nat, length: nat)

  /** The sectors one record contributes: `length // 512` consecutive
      sector numbers starting at `physical // 512`. */
  function RecordSectors(e: FiemapExtent): (s: seq<nat>)
    ensures |s| == e.length / SectorSize
  {
    Contiguous(e.physical / SectorSize, e.length / SectorSize)
  }

  /** The records' sector runs, concatenated in record order. */
  function FlattenRecords(rs: seq<FiemapExtent>): seq<nat>
  {
    if |rs| == 0 then [] else FlattenRecords(rs[..|rs| - 1]) + RecordSectors(rs[|rs| - 1])
  }

  /** Σ `length // 512` over the records. */
  function SectorTotal(rs: seq<FiemapExtent>): nat
  {
    if |rs| == 0 then 0 else SectorTotal(rs[..|rs| - 1]) + rs[|rs| - 1].length / SectorSize
  }

  /** The result of `get_file_physical_sectors` after its two queries:
      nothing when the first query reports no mapped extents, otherwise the
      runs of the first `mapped` records of the second query. The records
      array has exactly one slot per extent of the first count, the kernel
      fills at most that many, and the source indexes it up to `mapped`,
      hence the precondition. */
  function PhysicalSectors(extentCount: nat, mapped: nat, records: seq<FiemapExtent>): seq<nat>
    requires extentCount > 0 ==> |records| == extentCount && mapped <= extentCount
  {
    if extentCount == 0 then [] else FlattenRecords(records[..mapped])
  }

  /** The source's nested loops: for each of the first `mapped` records,
      append `start_sector + s` for `s` in `range(num_sectors)`. The
      alignment check does nothing, so misaligned values are truncated by
      the floor divisions. */
  method FlattenMapped(extentCount: nat, mapped: nat, records: seq<FiemapExtent>) returns (sectors: seq<nat>)
    requires extentCount > 0 ==> |records| == extentCount && mapped <= extentCount
    ensures sectors == PhysicalSectors(extentCount, mapped, records)
    ensures extentCount == 0 ==> sectors == []
  {
    sectors := [];
    if extentCount == 0 {
      return;
    }
    var i := 0;
    while i < mapped
      invariant 0 <= i <= mapped
      invariant sectors == FlattenRecords(records[..i])
    {
      var ext := records[i];
      var startSector := ext.physical / SectorSize;
      var numSectors := ext.length / SectorSize;
      var s := 0;
      while s < numSectors
        invariant 0 <= s <= numSectors
        invariant sectors == FlattenRecords(records[..i]) + Contiguous(startSector, s)
      {
        assert Contiguous(startSector, s + 1) == Contiguous(startSector, s) + [startSector + s];
        sectors := sectors + [startSector + s];
        s := s + 1;
      }
      assert records[..i + 1][..i] == records[..i];
      i := i + 1;
    }
    assert records[..mapped] == records[..i];
  }

  // ---------------------------------------------------------------------
  // Properties of the flattening.
  // ---------------------------------------------------------------------

  /** The output has exactly Σ `length // 512` sectors. */
  lemma {:induction false} FlattenRecordsLength(rs: seq<FiemapExtent>)
    ensures |FlattenRecords(rs)| == SectorTotal(rs)
    decreases |rs|
  {
    if |rs| > 0 {
      FlattenRecordsLength(rs[..|rs| - 1]);
    }
  }

  /** The runs of two record lists one after the other are the runs of
      their concatenation. */
  lemma {:induction false} FlattenRecordsAppend(a: seq<FiemapExtent>, b: seq<FiemapExtent>)
    ensures FlattenRecords(a + b) == FlattenRecords(a) + FlattenRecords(b)
    decreases |b|
  {
    if |b| == 0 {
      assert a + b == a;
    } else {
      var init, last := b[..|b| - 1], b[|b| - 1];
      calc {
        FlattenRecords(a + b);
        { assert (a + b)[..|a + b| - 1] == a + init && (a + b)[|a + b| - 1] == last; }
        FlattenRecords(a + init) + RecordSectors(last);
        { FlattenRecordsAppend(a, init); }
        (FlattenRecords(a) + FlattenRecords(init)) + RecordSectors(last);
        FlattenRecords(a) + (FlattenRecords(init) + RecordSectors(last));
      }
    }
  }

  /** Record `j` contributes its run right after the runs of the records
      before it: `length // 512` ascending sector numbers from
      `physical // 512`. */
  lemma RecordRun(rs: seq<FiemapExtent>, j: nat)
    requires j < |rs|
    ensures var off, n := SectorTotal(rs[..j]), rs[j].length / SectorSize;
            && off + n <= |FlattenRecords(rs)|
            && FlattenRecords(rs)[off..off + n] == Contiguous(rs[j].physical / SectorSize, n)
  {
    assert rs == rs[..j] + [rs[j]] + rs[j + 1..];
    FlattenRecordsAppend(rs[..j] + [rs[j]], rs[j + 1..]);
    FlattenRecordsAppend(rs[..j], [rs[j]]);
    assert FlattenRecords([rs[j]]) == RecordSectors(rs[j]) by {
      assert [rs[j]][..0] == [];
    }
    FlattenRecordsLength(rs[..j]);
  }

  /** Every physical sector number appears with its record: the output is
      the concatenation, so a sector in it belongs to some record's run. */
  lemma {:induction false} SectorsComeFromRecords(rs: seq<FiemapExtent>, x: nat)
    requires x in FlattenRecords(rs)
    ensures exists j :: 0 <= j < |rs| && rs[j].physical / SectorSize <= x < rs[j].physical / SectorSize + rs[j].length / SectorSize
    decreases |rs|
  {
    var init := rs[..|rs| - 1];
    var e := rs[|rs| - 1];
    if x in FlattenRecords(init) {
      SectorsComeFromRecords(init, x);
      var j :| 0 <= j < |init| && init[j].physical / SectorSize <= x < init[j].physical / SectorSize + init[j].length / SectorSize;
      assert rs[j] == init[j];
    } else {
      var k :| 0 <= k < |RecordSectors(e)| && RecordSectors(e)[k] == x;
      assert rs[|rs| - 1] == e;
    }
  }

  /** A misaligned record is neither rejected nor rounded outwards: its run
      starts at the sector holding its first byte and covers only the whole
      sectors of its length. An aligned record's run covers it exactly. */
  lemma RecordTruncation(e: FiemapExtent)
    ensures var s := RecordSectors(e);
            && |s| * SectorSize <= e.length < |s| * SectorSize + SectorSize
            && (|s| > 0 ==> s[0] * SectorSize <= e.physical < s[0] * SectorSize + SectorSize)
            && (e.length % SectorSize == 0 ==> |s| * SectorSize == e.length)
            && (|s| > 0 && e.physical % SectorSize == 0 ==> s[0] * SectorSize == e.physical)
  {
  }

  /** The records as extents of the compressor's input: each record is the
      extent (`physical // 512`, `length // 512`). */
  function AsExtents(rs: seq<FiemapExtent>): (es: seq<Extent>)
    ensures |es| == |rs|
    ensures forall j :: 0 <= j < |rs| ==>
      es[j] == Extent(rs[j].physical / SectorSize, rs[j].length / SectorSize)
  {
    seq(|rs|, j requires 0 <= j < |rs| => Extent(rs[j].physical / SectorSize, rs[j].length / SectorSize))
  }

  lemma {:induction false} FlattenSnoc(es: seq<Extent>, e: Extent)
    ensures Flatten(es + [e]) == Flatten(es) + Expand(e)
    decreases |es|
  {
    if |es| == 0 {
      assert es + [e] == [e];
      assert Flatten([e][1..]) == [];
    } else {
      assert (es + [e])[0] == es[0] && (es + [e])[1..] == es[1..] + [e];
      FlattenSnoc(es[1..], e);
    }
  }

  /** The flattened records are exactly the sectors the compressor's
      extent table describes when each record is read as one extent; so
      the FIEMAP records and the patcher's extents are two views of the
      same sector list. */
  lemma {:induction false} FlattenRecordsIsFlatten(rs: seq<FiemapExtent>)
    ensures FlattenRecords(rs) == Flatten(AsExtents(rs))
    decreases |rs|
  {
    if |rs| > 0 {
      var init, e := rs[..|rs| - 1], rs[|rs| - 1];
      FlattenRecordsIsFlatten(init);
      assert AsExtents(rs) == AsExtents(init) + [Extent(e.physical / SectorSize, e.length / SectorSize)];
      FlattenSnoc(AsExtents(init), Extent(e.physical / SectorSize, e.length / SectorSize));
      assert Expand(Extent(e.physical / SectorSize, e.length / SectorSize)) == RecordSectors(e);
    }
  }

  /** A file mapped by a single record of 1 to 127 whole sectors reaches
      the patcher as a contiguous list, which the compressor turns into one
      extent equal to the record. */
  lemma OneRecordOneExtent(e: FiemapExtent)
    requires SectorSize <= e.length < (MaxExtentSectors + 1) * SectorSize
    ensures Compress(PhysicalSectors(1, 1, [e])) == [Extent(e.physical / SectorSize, e.length / SectorSize)]
  {
    assert [e][..1] == [e] && [e][..0] == [];
    assert FlattenRecords([e]) == [] + RecordSectors(e);
    assert PhysicalSectors(1, 1, [e]) == Contiguous(e.physical / SectorSize, e.length / SectorSize);
    ContiguousIsOneExtent(e.physical / SectorSize, e.length / SectorSize);
  }
}
