/**
 * `read_udf_file`: the mount procedure of the UDF reader. After the two
 * probes it reads the anchor at sector 256, scans the main volume
 * descriptor sequence up to sector 256 for the partition, logical volume
 * and terminating descriptors, builds the logical partitions of the
 * volume's partition maps, reads the file set descriptor and opens the
 * root directory.
 */
module Mount {
  import opened Wrappers
  import opened Bytes
  import opened Tags
  import opened Records
  import opened VolumeDescriptors
  import opened Extents
  import opened Directories
  import opened Recognition

  /** `PhysicalPartition`: the byte range a partition descriptor gives. */
  datatype PhysicalPartition = PhysicalPartition(start: nat, length: nat)

  /** `Type1Partition`: the physical partition its map names and the
      volume's logical block size. */
  datatype LogicalPartition = LogicalPartition(physical: PhysicalPartition, logicalBlockSize: nat)

  /** What the descriptor scan has gathered: the physical partitions by
      partition number, the last partition descriptor (None while the
      Python variable is still unbound), the logical volume descriptor and
      whether a terminating descriptor was seen. */
  datatype ScanState = ScanState(
    physicalPartitions: map<nat, PhysicalPartition>,
    partitionDescriptor: Option<PartitionDescriptor>,
    logicalVolume: Option<LogicalVolumeDescriptor>,
    terminated: bool)

  const NothingScanned := ScanState(map[], None, None, false)

  /** The last sector the scan reads, that of the anchor. */
  const AnchorSector: nat := 256

  /** What one accepted descriptor adds to the scan. */
  datatype Finding =
    | NoFinding
    | PartitionFound(pd: PartitionDescriptor)
    | VolumeFound(lvd: LogicalVolumeDescriptor)
    | TerminatorFound

  /** The chain of tests on the identifier of an accepted tag: the
      descriptors the scan uses are parsed from `buffer`, the 512 bytes
      read at the sector, and an identifier outside the known ones and not
      0 is an error. */
  function Examine(buffer: seq<byte>, id: nat): (r: Result<Finding, Error>)
    ensures (|| id == 0 || id == VolumeDescriptorPointerId || id == ImplementationUseVolumeDescriptorId
             || id == UnallocatedSpaceDescriptorId || id == LogicalVolumeIntegrityDescriptorId) ==> r == Ok(NoFinding)
    ensures id > LogicalVolumeIntegrityDescriptorId ==> r == Err(UnexpectedDescriptor)
    ensures r.Ok? && r.value.PartitionFound? ==> id == PartitionDescriptorId
    ensures r.Ok? && r.value.VolumeFound? ==> id == LogicalVolumeDescriptorId
    ensures r.Ok? && r.value.TerminatorFound? ==> id == TerminatingDescriptorId
  {
    if id == PrimaryVolumeDescriptorId then
      var _ :- ParsePrimaryVolumeDescriptor(buffer, 0);
      Ok(NoFinding)
    else if id == AnchorVolumeDescriptorPointerId then
      var _ :- ParseAnchorVolumeDescriptorPointer(buffer, 0);
      Ok(NoFinding)
    else if id == VolumeDescriptorPointerId || id == ImplementationUseVolumeDescriptorId then
      Ok(NoFinding)
    else if id == PartitionDescriptorId then
      var pd :- ParsePartitionDescriptor(buffer, 0);
      Ok(PartitionFound(pd))
    else if id == LogicalVolumeDescriptorId then
      var lvd :- ParseLogicalVolumeDescriptor(buffer, 0);
      Ok(VolumeFound(lvd))
    else if id == UnallocatedSpaceDescriptorId then
      Ok(NoFinding)
    else if id == TerminatingDescriptorId then
      var _ :- ParseTerminatingDescriptor(buffer, 0);
      Ok(TerminatorFound)
    else if id == LogicalVolumeIntegrityDescriptorId then
      Ok(NoFinding)
    else if id != 0 then
      Err(UnexpectedDescriptor)
    else
      Ok(NoFinding)
  }

  /** The scan state after a finding: a partition descriptor is stored
      under its partition number with its start and length in bytes. */
  function Apply(st: ScanState, f: Finding, sectorSize: nat): (r: ScanState)
    ensures Extends(st, r)
    ensures f.PartitionFound? ==> f.pd.partitionNumber in r.physicalPartitions && r.partitionDescriptor == Some(f.pd)
    ensures f.VolumeFound? ==> r.logicalVolume == Some(f.lvd)
    ensures f.TerminatorFound? ==> r.terminated
    ensures f.NoFinding? ==> r == st
  {
    match f
    case NoFinding => st
    case PartitionFound(pd) =>
      var partition := PhysicalPartition(BlockPosition(pd.partitionStartingLocation, sectorSize),
                                         BlockPosition(pd.partitionLength, sectorSize));
      st.(physicalPartitions := st.physicalPartitions[pd.partitionNumber := partition],
          partitionDescriptor := Some(pd))
    case VolumeFound(lvd) => st.(logicalVolume := Some(lvd))
    case TerminatorFound => st.(terminated := true)
  }

  /** The branch of the scan for a descriptor whose tag was accepted with
      identifier `id`; `buffer` holds the 512 bytes read at its sector. */
  function Record(buffer: seq<byte>, id: nat, sectorSize: nat, st: ScanState): (r: Result<ScanState, Error>)
    ensures r.Ok? ==> st.physicalPartitions.Keys <= r.value.physicalPartitions.Keys
    ensures r.Ok? && st.logicalVolume.Some? ==> r.value.logicalVolume.Some?
    ensures r.Ok? && st.partitionDescriptor.Some? ==> r.value.partitionDescriptor.Some?
    ensures r.Ok? && st.terminated ==> r.value.terminated
    ensures r.Err? <==> Examine(buffer, id).Err?
  {
    var f :- Examine(buffer, id);
    Ok(Apply(st, f, sectorSize))
  }

  /** One sector of the descriptor loop: the 16 bytes of its tag are read
      and checked; a sector whose tag is not accepted is skipped (None),
      any other is read as 512 bytes and handed to Record. */
  function Visit(image: seq<byte>, sectorSize: nat, sector: nat, st: ScanState): (r: Result<Option<ScanState>, Error>)
    ensures r.Ok? && r.value.Some? ==> Extends(st, r.value.value)
  {
    var at := BlockPosition(sector, sectorSize);
    var tag := ParseDescriptorTag(Slice(image, at, at + 16), 0);
    if tag.Err? then Ok(None)
    else
      var st' :- Record(Slice(image, at, at + DescriptorSize), tag.value.tagIdentifier, sectorSize, st);
      Ok(Some(st'))
  }

  /** A sector reader with the shape of Visit. The scan is stated for any
      such reader that only adds to the state, which Visit does (lemma
      VisitGrows). */
  type Visitor = (seq<byte>, nat, nat, ScanState) -> Result<Option<ScanState>, Error>

  /** `st'` keeps everything `st` knew: no partition is forgotten, and a
      known volume, partition descriptor or terminator stays known. */
  predicate Extends(st: ScanState, st': ScanState)
  {
    && st.physicalPartitions.Keys <= st'.physicalPartitions.Keys
    && (st.logicalVolume.Some? ==> st'.logicalVolume.Some?)
    && (st.partitionDescriptor.Some? ==> st'.partitionDescriptor.Some?)
    && (st.terminated ==> st'.terminated)
  }

  ghost predicate Grows(visit: Visitor)
  {
    forall image, sectorSize, sector, st :: visit(image, sectorSize, sector, st).Ok? && visit(image, sectorSize, sector, st).value.Some? ==>
      Extends(st, visit(image, sectorSize, sector, st).value.value)
  }

  lemma VisitGrows()
    ensures Grows(Visit)
  {
    forall image, sectorSize, sector, st | Visit(image, sectorSize, sector, st).Ok? && Visit(image, sectorSize, sector, st).value.Some?
      ensures Extends(st, Visit(image, sectorSize, sector, st).value.value)
    {
    }
  }

  /** The scan from `sector` up to sector 256. After a sector that was not
      skipped, once a logical volume descriptor is known the scan fails if
      no partition descriptor was ever seen, and stops when the
      terminating descriptor is known too. */
  function ScanFrom(visit: Visitor, image: seq<byte>, sectorSize: nat, sector: nat, st: ScanState): Result<ScanState, Error>
    decreases AnchorSector + 1 - sector
  {
    if sector > AnchorSector then Ok(st)
    else
      var next :- visit(image, sectorSize, sector, st);
      if next.None? then ScanFrom(visit, image, sectorSize, sector + 1, st)
      else if next.value.logicalVolume.Some? && next.value.partitionDescriptor.None? then Err(UnboundPartitionDescriptor)
      else if next.value.logicalVolume.Some? && next.value.terminated then Ok(next.value)
      else ScanFrom(visit, image, sectorSize, sector + 1, next.value)
  }

  /** A logical volume descriptor never comes out of the scan without a
      partition descriptor. */
  lemma {:induction false} ScanKeepsPartitionBeforeVolume(visit: Visitor, image: seq<byte>, sectorSize: nat, sector: nat, st: ScanState)
    requires Grows(visit)
    requires st.logicalVolume.Some? ==> st.partitionDescriptor.Some?
    ensures ScanFrom(visit, image, sectorSize, sector, st).Ok? ==>
      var r := ScanFrom(visit, image, sectorSize, sector, st).value;
      r.logicalVolume.Some? ==> r.partitionDescriptor.Some?
    decreases AnchorSector + 1 - sector
  {
    if sector <= AnchorSector {
      var next := visit(image, sectorSize, sector, st);
      if next.Ok? && next.value.None? {
        ScanKeepsPartitionBeforeVolume(visit, image, sectorSize, sector + 1, st);
      } else if next.Ok? && !(next.value.value.logicalVolume.Some? && next.value.value.partitionDescriptor.None?) {
        ScanKeepsPartitionBeforeVolume(visit, image, sectorSize, sector + 1, next.value.value);
      }
    }
  }

  /** The scan only adds partitions, and what it has found stays found. */
  lemma {:induction false} ScanGrows(visit: Visitor, image: seq<byte>, sectorSize: nat, sector: nat, st: ScanState)
    requires Grows(visit)
    ensures ScanFrom(visit, image, sectorSize, sector, st).Ok? ==>
      var r := ScanFrom(visit, image, sectorSize, sector, st).value;
      && st.physicalPartitions.Keys <= r.physicalPartitions.Keys
      && (st.logicalVolume.Some? ==> r.logicalVolume.Some?)
      && (st.terminated ==> r.terminated)
    decreases AnchorSector + 1 - sector
  {
    if sector <= AnchorSector {
      var next := visit(image, sectorSize, sector, st);
      if next.Ok? && next.value.None? {
        ScanGrows(visit, image, sectorSize, sector + 1, st);
      } else if next.Ok? {
        ScanGrows(visit, image, sectorSize, sector + 1, next.value.value);
      }
    }
  }

  /** The descriptor loop of `read_udf_file`, over sectors `first` to 256,
      reading each sector with `visit`. */
  method Scan(visit: Visitor, image: seq<byte>, sectorSize: nat, first: nat) returns (r: Result<ScanState, Error>)
    ensures r == ScanFrom(visit, image, sectorSize, first, NothingScanned)
  {
    var st := NothingScanned;
    var sector := first;
    while sector <= AnchorSector
      invariant ScanFrom(visit, image, sectorSize, first, NothingScanned) == ScanFrom(visit, image, sectorSize, sector, st)
      decreases AnchorSector + 1 - sector
    {
      var next := visit(image, sectorSize, sector, st);
      if next.Err? {
        return Err(next.error);
      }
      if next.value.None? {
        sector := sector + 1;
        continue;
      }
      st := next.value.value;
      if st.logicalVolume.Some? {
        if st.partitionDescriptor.None? {
          return Err(UnboundPartitionDescriptor);
        }
        if st.terminated {
          break;
        }
      }
      sector := sector + 1;
    }
    return Ok(st);
  }

  /** `LogicalPartition.from_descriptor` for each map, in order: the
      partition number of every map must name a physical partition. */
  function LogicalPartitions(maps: seq<Type1PartitionMap>, physical: map<nat, PhysicalPartition>, logicalBlockSize: nat): (r: Result<seq<LogicalPartition>, Error>)
    ensures r.Ok? <==> forall i :: 0 <= i < |maps| ==> maps[i].partitionNumber in physical
    ensures r.Err? ==> r.error == NoSuchPartition
    ensures r.Ok? ==>
      && |r.value| == |maps|
      && forall i :: 0 <= i < |maps| ==>
           r.value[i] == LogicalPartition(physical[maps[i].partitionNumber], logicalBlockSize)
  {
    if maps == [] then Ok([])
    else if maps[0].partitionNumber !in physical then Err(NoSuchPartition)
    else
      var rest :- LogicalPartitions(maps[1..], physical, logicalBlockSize);
      Ok([LogicalPartition(physical[maps[0].partitionNumber], logicalBlockSize)] + rest)
  }

  /** The loop appending to `context.logical_partitions`. */
  method BuildLogicalPartitions(maps: seq<Type1PartitionMap>, physical: map<nat, PhysicalPartition>, logicalBlockSize: nat)
    returns (r: Result<seq<LogicalPartition>, Error>)
    ensures r == LogicalPartitions(maps, physical, logicalBlockSize)
  {
    var partitions: seq<LogicalPartition> := [];
    for i := 0 to |maps|
      invariant |partitions| == i
      invariant forall j :: 0 <= j < i ==>
        maps[j].partitionNumber in physical &&
        partitions[j] == LogicalPartition(physical[maps[j].partitionNumber], logicalBlockSize)
    {
      if maps[i].partitionNumber !in physical {
        return Err(NoSuchPartition);
      }
      partitions := partitions + [LogicalPartition(physical[maps[i].partitionNumber], logicalBlockSize)];
    }
    assert partitions == LogicalPartitions(maps, physical, logicalBlockSize).value;
    return Ok(partitions);
  }

  /** `read_extent`: the bytes of a long allocation descriptor's extent,
      read from the start of its logical partition plus its block number
      times the logical block size. */
  function ReadExtent(image: seq<byte>, partitions: seq<LogicalPartition>, extent: LongAllocationDescriptor): (r: Result<seq<byte>, Error>)
    ensures r.Ok? <==> extent.extentLocation.partitionReferenceNumber < |partitions|
    ensures r.Err? ==> r.error == NoSuchPartition
    ensures r.Ok? ==>
      var p := partitions[extent.extentLocation.partitionReferenceNumber];
      var at := p.physical.start + BlockPosition(extent.extentLocation.logicalBlockNumber, p.logicalBlockSize);
      && |r.value| <= extent.extentLength
      && (at + extent.extentLength <= |image| ==> r.value == image[at..at + extent.extentLength])
  {
    var index := extent.extentLocation.partitionReferenceNumber;
    if index >= |partitions| then Err(NoSuchPartition)
    else
      var p := partitions[index];
      var at := p.physical.start + BlockPosition(extent.extentLocation.logicalBlockNumber, p.logicalBlockSize);
      SliceWithinIfFits(image, at, at + extent.extentLength);
      Ok(Slice(image, at, at + extent.extentLength))
  }

  lemma SliceWithinIfFits(s: seq<byte>, lo: nat, hi: nat)
    requires lo <= hi
    ensures hi <= |s| ==> Slice(s, lo, hi) == s[lo..hi]
    ensures |Slice(s, lo, hi)| <= hi - lo
  {
    if hi <= |s| {
      SliceWithin(s, lo, hi);
    }
  }

  /** `File.from_descriptor` for the root ICB: the extent must start with
      a file entry tag, and the file entry must be a directory, which is
      then read with its partition's start and logical block size. */
  function RootDirectory(image: seq<byte>, partitions: seq<LogicalPartition>, icb: LongAllocationDescriptor): Result<seq<FileIdentifierDescriptor>, Error>
  {
    if icb.extentLocation.partitionReferenceNumber >= |partitions| then Err(NoSuchPartition)
    else
      var partition := partitions[icb.extentLocation.partitionReferenceNumber];
      var root :- ReadExtent(image, partitions, icb);
      var dt :- ParseDescriptorTag(root, 0);
      if dt.tagIdentifier != FileEntryId then Err(UnsupportedRootTag)
      else
        var fileEntry :- ParseFileEntry(root, 0);
        if fileEntry.icbTag.fileType != DirectoryFileType then Err(NotADirectory)
        else Directory(image, partition.physical.start, partition.logicalBlockSize, fileEntry)
  }

  /** The root is only ever a directory read from a file entry. */
  lemma RootIsDirectoryFileEntry(image: seq<byte>, partitions: seq<LogicalPartition>, icb: LongAllocationDescriptor)
    ensures RootDirectory(image, partitions, icb).Ok? ==>
      && icb.extentLocation.partitionReferenceNumber < |partitions|
      && var root := ReadExtent(image, partitions, icb).value;
         && ParseDescriptorTag(root, 0).Ok?
         && ParseDescriptorTag(root, 0).value.tagIdentifier == FileEntryId
         && ParseFileEntry(root, 0).Ok?
         && ParseFileEntry(root, 0).value.icbTag.fileType == DirectoryFileType
         && var partition := partitions[icb.extentLocation.partitionReferenceNumber];
            RootDirectory(image, partitions, icb) ==
              Directory(image, partition.physical.start, partition.logicalBlockSize, ParseFileEntry(root, 0).value)
  {
  }

  /** The checks `read_udf_file` makes once the scan is over. */
  function Open(image: seq<byte>, st: ScanState): Result<seq<FileIdentifierDescriptor>, Error>
  {
    if st.logicalVolume.None? then Err(MissingLogicalVolume)
    else if st.partitionDescriptor.None? then Err(MissingPartition)
    else if !st.terminated then Err(MissingTerminator)
    else OpenLogicalVolume(image, st.logicalVolume.value, st.physicalPartitions)
  }

  /** The rest of `read_udf_file` once the descriptors are known: the
      logical partitions, the file set descriptor and the root
      directory. */
  function OpenLogicalVolume(image: seq<byte>, lvd: LogicalVolumeDescriptor, physical: map<nat, PhysicalPartition>): Result<seq<FileIdentifierDescriptor>, Error>
  {
    var maps :- LogicalVolumePartitionMaps(lvd);
    var partitions :- LogicalPartitions(maps, physical, lvd.logicalBlockSize);
    var location :- FileSetDescriptorLocation(lvd);
    var fsdBuffer :- ReadExtent(image, partitions, location);
    if ParseDescriptorTag(fsdBuffer, 0).Err? then Err(NoFileSetTag)
    else
      var fsd :- ParseFileSetDescriptor(fsdBuffer, 0);
      RootDirectory(image, partitions, fsd.rootDirectoryIcb)
  }

  /** The first half of `read_udf_file`: recognition, the sector size, the
      anchor and the descriptor scan, reading each sector with `visit`. */
  function ScannedWith(visit: Visitor, image: seq<byte>): Result<ScanState, Error>
  {
    if !IsValidUdf(image) then Err(NotValidUdf)
    else
      var sectorSize :- GetSectorSize(image);
      ScannedFromAnchor(visit, image, sectorSize)
  }

  /** The anchor at sector 256 of the given size, then the descriptor scan
      from the start of the main volume descriptor sequence it points to. */
  function ScannedFromAnchor(visit: Visitor, image: seq<byte>, sectorSize: nat): Result<ScanState, Error>
  {
    var at := BlockPosition(AnchorSector, sectorSize);
    var avdp :- ParseAnchorVolumeDescriptorPointer(Slice(image, at, at + DescriptorSize), 0);
    ScanFrom(visit, image, sectorSize, avdp.mainVolumeDescriptorSequenceExtent.extentLocation, NothingScanned)
  }

  /** The first half of `read_udf_file` with the descriptor constructors. */
  function Scanned(image: seq<byte>): Result<ScanState, Error>
  {
    ScannedWith(Visit, image)
  }

  /** `read_udf_file` on an image already in memory: the entries of its
      root directory. */
  function ReadUdf(image: seq<byte>): Result<seq<FileIdentifierDescriptor>, Error>
  {
    var st :- Scanned(image);
    Open(image, st)
  }

  /** Sector 256 of a size with an anchor is read as 512 bytes whose first
      16 are the anchor's tag. */
  lemma AnchorSectorHoldsTag(image: seq<byte>, size: nat)
    requires size >= 512
    requires HasAnchor(image, size)
    ensures var buffer := Slice(image, BlockPosition(AnchorSector, size), BlockPosition(AnchorSector, size) + DescriptorSize);
      && |image| >= 257 * size
      && ParseDescriptorTag(Slice(buffer, 0, 16), 0).Ok?
      && ParseDescriptorTag(Slice(buffer, 0, 16), 0).value.tagIdentifier == AnchorVolumeDescriptorPointerId
  {
    var at := BlockPosition(AnchorSector, size);
    assert at == 256 * size;
    SliceWithin(image, at, at + DescriptorSize);
    SliceWithin(image, at, at + 16);
    var buffer := Slice(image, at, at + DescriptorSize);
    assert Slice(buffer, 0, 16) == Slice(image, at, at + 16);
  }

  /** The two checks `read_udf_file` makes after `get_sector_size`, that
      the image holds 257 sectors and that sector 256 starts with an
      anchor tag, always pass: `get_sector_size` has already made them on
      the same bytes. The model leaves them out. */
  lemma AnchorChecksPass(image: seq<byte>)
    requires GetSectorSize(image).Ok?
    ensures var size := GetSectorSize(image).value;
      var buffer := Slice(image, BlockPosition(AnchorSector, size), BlockPosition(AnchorSector, size) + DescriptorSize);
      && |image| >= 257 * size
      && ParseDescriptorTag(Slice(buffer, 0, 16), 0).Ok?
      && ParseDescriptorTag(Slice(buffer, 0, 16), 0).value.tagIdentifier == AnchorVolumeDescriptorPointerId
  {
    SectorSizeFromHasAnchor(image, 0);
    AnchorSectorHoldsTag(image, GetSectorSize(image).value);
  }

  /** The scan never hands over a logical volume without a partition
      descriptor, so the "missing partition descriptor" branch of Open is
      never taken on the way from an image. */
  lemma ScannedKeepsPartitionBeforeVolume(image: seq<byte>)
    ensures Scanned(image).Ok? && Scanned(image).value.logicalVolume.Some? ==>
      Scanned(image).value.partitionDescriptor.Some?
  {
    VisitGrows();
    ScannedWithKeepsPartitionBeforeVolume(Visit, image);
  }

  /** The same for the first half of `read_udf_file` with any reader that
      only adds to the state. */
  lemma ScannedWithKeepsPartitionBeforeVolume(visit: Visitor, image: seq<byte>)
    requires Grows(visit)
    ensures ScannedWith(visit, image).Ok? && ScannedWith(visit, image).value.logicalVolume.Some? ==>
      ScannedWith(visit, image).value.partitionDescriptor.Some?
  {
    if IsValidUdf(image) && GetSectorSize(image).Ok? {
      AnchorScanKeepsPartitionBeforeVolume(visit, image, GetSectorSize(image).value);
    }
  }

  /** The scan from the anchor, with any reader that only adds to the
      state, keeps a partition descriptor before a logical volume. */
  lemma AnchorScanKeepsPartitionBeforeVolume(visit: Visitor, image: seq<byte>, sectorSize: nat)
    requires Grows(visit)
    ensures ScannedFromAnchor(visit, image, sectorSize).Ok? && ScannedFromAnchor(visit, image, sectorSize).value.logicalVolume.Some? ==>
      ScannedFromAnchor(visit, image, sectorSize).value.partitionDescriptor.Some?
  {
    var at := BlockPosition(AnchorSector, sectorSize);
    var avdp := ParseAnchorVolumeDescriptorPointer(Slice(image, at, at + DescriptorSize), 0);
    if avdp.Ok? {
      ScanKeepsPartitionBeforeVolume(visit, image, sectorSize, avdp.value.mainVolumeDescriptorSequenceExtent.extentLocation, NothingScanned);
    }
  }

  /** A root directory is only ever returned for an image that passes the
      recognition scan, has a sector size, and whose descriptor scan found
      a logical volume, a partition and a terminating descriptor. */
  lemma ReadUdfNeedsAllDescriptors(image: seq<byte>)
    ensures ReadUdf(image).Ok? ==>
      && IsValidUdf(image)
      && GetSectorSize(image).Ok?
      && Scanned(image).Ok?
      && var st := Scanned(image).value;
         && st.logicalVolume.Some?
         && st.partitionDescriptor.Some?
         && st.terminated
         && ReadUdf(image) == OpenLogicalVolume(image, st.logicalVolume.value, st.physicalPartitions)
  {
    if ReadUdf(image).Ok? {
      ScannedWithNeeds(Visit, image);
      OpenNeeds(image, Scanned(image).value);
    }
  }

  /** A scan that succeeds was preceded by recognition and a sector size. */
  lemma ScannedWithNeeds(visit: Visitor, image: seq<byte>)
    ensures ScannedWith(visit, image).Ok? ==> IsValidUdf(image) && GetSectorSize(image).Ok?
  {
  }

  /** Opening succeeds only with a logical volume, a partition descriptor
      and a terminator, and then opens the logical volume. */
  lemma OpenNeeds(image: seq<byte>, st: ScanState)
    ensures Open(image, st).Ok? ==>
      && st.logicalVolume.Some?
      && st.partitionDescriptor.Some?
      && st.terminated
      && Open(image, st) == OpenLogicalVolume(image, st.logicalVolume.value, st.physicalPartitions)
  {
  }


  /** `File.from_descriptor` for the root ICB, reading the directory with
      the imperative walk. */
  method OpenRootDirectory(image: seq<byte>, partitions: seq<LogicalPartition>, icb: LongAllocationDescriptor)
    returns (r: Result<seq<FileIdentifierDescriptor>, Error>)
    ensures r == RootDirectory(image, partitions, icb)
  {
    if icb.extentLocation.partitionReferenceNumber >= |partitions| {
      return Err(NoSuchPartition);
    }
    var partition := partitions[icb.extentLocation.partitionReferenceNumber];
    var root := ReadExtent(image, partitions, icb);
    if root.Err? {
      return Err(root.error);
    }
    var dt := ParseDescriptorTag(root.value, 0);
    if dt.Err? {
      return Err(dt.error);
    }
    if dt.value.tagIdentifier != FileEntryId {
      return Err(UnsupportedRootTag);
    }
    var fileEntry := ParseFileEntry(root.value, 0);
    if fileEntry.Err? {
      return Err(fileEntry.error);
    }
    if fileEntry.value.icbTag.fileType != DirectoryFileType {
      return Err(NotADirectory);
    }
    r := ReadDirectory(image, partition.physical.start, partition.logicalBlockSize, fileEntry.value);
  }

  /** The checks of `read_udf_file` after the descriptor scan. */
  method OpenVolume(image: seq<byte>, st: ScanState) returns (r: Result<seq<FileIdentifierDescriptor>, Error>)
    ensures r == Open(image, st)
  {
    if st.logicalVolume.None? {
      return Err(MissingLogicalVolume);
    }
    if st.partitionDescriptor.None? {
      return Err(MissingPartition);
    }
    if !st.terminated {
      return Err(MissingTerminator);
    }
    r := OpenPartitions(image, st.logicalVolume.value, st.physicalPartitions);
  }

  /** The partitions, file set descriptor and root directory of a logical
      volume. */
  method OpenPartitions(image: seq<byte>, lvd: LogicalVolumeDescriptor, physical: map<nat, PhysicalPartition>)
    returns (r: Result<seq<FileIdentifierDescriptor>, Error>)
    ensures r == OpenLogicalVolume(image, lvd, physical)
  {
    var maps := GetPartitionMaps(lvd.rawPartitionMaps, lvd.numberOfPartitionMaps);
    if maps.Err? {
      return Err(maps.error);
    }
    var partitions := BuildLogicalPartitions(maps.value, physical, lvd.logicalBlockSize);
    if partitions.Err? {
      return Err(partitions.error);
    }
    var location := FileSetDescriptorLocation(lvd);
    if location.Err? {
      return Err(location.error);
    }
    var fsdBuffer := ReadExtent(image, partitions.value, location.value);
    if fsdBuffer.Err? {
      return Err(fsdBuffer.error);
    }
    if ParseDescriptorTag(fsdBuffer.value, 0).Err? {
      return Err(NoFileSetTag);
    }
    var fsd := ParseFileSetDescriptor(fsdBuffer.value, 0);
    if fsd.Err? {
      return Err(fsd.error);
    }
    r := OpenRootDirectory(image, partitions.value, fsd.value.rootDirectoryIcb);
  }

  /** Recognition, sector size, anchor and descriptor scan. */
  method ScanImageWith(visit: Visitor, image: seq<byte>) returns (r: Result<ScanState, Error>)
    ensures r == ScannedWith(visit, image)
  {
    var valid := IsValidUdfScan(image);
    if !valid {
      return Err(NotValidUdf);
    }
    var sectorSize := FindSectorSize(image);
    if sectorSize.Err? {
      return Err(sectorSize.error);
    }
    r := ScanFromAnchor(visit, image, sectorSize.value);
  }

  /** Read the anchor, then scan the descriptors it points to. */
  method ScanFromAnchor(visit: Visitor, image: seq<byte>, sectorSize: nat) returns (r: Result<ScanState, Error>)
    ensures r == ScannedFromAnchor(visit, image, sectorSize)
  {
    var at := BlockPosition(AnchorSector, sectorSize);
    var avdp := ParseAnchorVolumeDescriptorPointer(Slice(image, at, at + DescriptorSize), 0);
    if avdp.Err? {
      return Err(avdp.error);
    }
    r := Scan(visit, image, sectorSize, avdp.value.mainVolumeDescriptorSequenceExtent.extentLocation);
  }

  /** The first half of `read_udf_file` with the descriptor constructors. */
  method ScanImage(image: seq<byte>) returns (r: Result<ScanState, Error>)
    ensures r == Scanned(image)
  {
    r := ScanImageWith(Visit, image);
  }

  /** `read_udf_file`, given the bytes of the image. */
  method ReadUdfFile(image: seq<byte>) returns (r: Result<seq<FileIdentifierDescriptor>, Error>)
    ensures r == ReadUdf(image)
  {
    var st := ScanImage(image);
    if st.Err? {
      return Err(st.error);
    }
    r := OpenVolume(image, st.value);
  }
}
