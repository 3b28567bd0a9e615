/**
 * The 512-byte descriptors of the volume descriptor sequence (ECMA-167
 * part 3, 10) and the file set descriptor (part 4, 14.1), reduced to the
 * fields the reader uses and the checks their constructors make: the record
 * fits, its tag is accepted and of the expected kind, its d-strings decode
 * and its reserved tail is zero.
 */
module VolumeDescriptors {
  import opened Wrappers
  import opened Bytes
  import opened Tags
  import opened Records
  import DChars

  const DescriptorSize: nat := 512

  /** The tag at `start` is accepted and has identifier `id`. */
  predicate TaggedAs(buf: seq<byte>, start: nat, id: nat)
  {
    ParseDescriptorTag(buf, start).Ok? && ParseDescriptorTag(buf, start).value.tagIdentifier == id
  }

  /** The common opening of every tagged descriptor: the size check of
      `BaseTag`, the tag, and `_assert_tag_identifier`. */
  function ParseTagOf(buf: seq<byte>, start: nat, size: nat, id: nat): (r: Result<DescriptorTag, Error>)
    requires size >= 16
    ensures r.Ok? <==> start + size <= |buf| && TaggedAs(buf, start, id)
    ensures r.Ok? ==> r.value == ParseDescriptorTag(buf, start).value && r.value.tagIdentifier == id
    ensures start + size > |buf| ==> r == Err(ShortBuffer)
  {
    if start + size > |buf| then Err(ShortBuffer)
    else
      var tag :- ParseDescriptorTag(buf, start);
      if tag.tagIdentifier != id then Err(WrongTagIdentifier) else Ok(tag)
  }

  datatype AnchorVolumeDescriptorPointer = AnchorVolumeDescriptorPointer(
    descriptorTag: DescriptorTag,
    mainVolumeDescriptorSequenceExtent: ExtentDescriptor,
    reserveVolumeDescriptorSequenceExtent: ExtentDescriptor)

  function ParseAnchorVolumeDescriptorPointer(buf: seq<byte>, start: nat): (r: Result<AnchorVolumeDescriptorPointer, Error>)
    ensures r.Ok? <==>
      && start + DescriptorSize <= |buf| && TaggedAs(buf, start, AnchorVolumeDescriptorPointerId)
      && IsZero(buf[start + 32..start + 512])
    ensures r.Ok? ==>
      && r.value.mainVolumeDescriptorSequenceExtent == ParseExtentDescriptor(buf, start + 16).value
      && r.value.reserveVolumeDescriptorSequenceExtent == ParseExtentDescriptor(buf, start + 24).value
  {
    var tag :- ParseTagOf(buf, start, DescriptorSize, AnchorVolumeDescriptorPointerId);
    var main := ParseExtentDescriptor(buf, start + 16).value;
    var reserve := ParseExtentDescriptor(buf, start + 24).value;
    SliceWithin(buf, start + 32, start + 512);
    if !IsZero(Slice(buf, start + 32, start + 512)) then Err(ReservedNotZero)
    else Ok(AnchorVolumeDescriptorPointer(tag, main, reserve))
  }

  datatype PrimaryVolumeDescriptor = PrimaryVolumeDescriptor(
    descriptorTag: DescriptorTag,
    volumeDescriptorSequenceNumber: nat,
    volumeIdentifier: seq<nat>,
    volumeSetIdentifier: seq<nat>)

  function ParsePrimaryVolumeDescriptor(buf: seq<byte>, start: nat): (r: Result<PrimaryVolumeDescriptor, Error>)
    ensures r.Ok? <==>
      && start + DescriptorSize <= |buf| && TaggedAs(buf, start, PrimaryVolumeDescriptorId)
      && DChars.ToDString(buf, start + 24, 32).Ok?
      && DChars.ToDString(buf, start + 72, 128).Ok?
      && IsZero(buf[start + 490..start + 512])
    ensures r.Ok? ==>
      && r.value.volumeIdentifier == DChars.ToDString(buf, start + 24, 32).value
      && r.value.volumeSetIdentifier == DChars.ToDString(buf, start + 72, 128).value
  {
    var tag :- ParseTagOf(buf, start, DescriptorSize, PrimaryVolumeDescriptorId);
    var volumeIdentifier :- DChars.ToDString(buf, start + 24, 32);
    var volumeSetIdentifier :- DChars.ToDString(buf, start + 72, 128);
    SliceWithin(buf, start + 490, start + 512);
    if !IsZero(Slice(buf, start + 490, start + 512)) then Err(ReservedNotZero)
    else Ok(PrimaryVolumeDescriptor(tag, ToUint32(buf, start + 16), volumeIdentifier, volumeSetIdentifier))
  }

  datatype PartitionDescriptor = PartitionDescriptor(
    descriptorTag: DescriptorTag,
    partitionFlags: nat,
    partitionNumber: nat,
    accessType: nat,
    partitionStartingLocation: nat,
    partitionLength: nat)

  function ParsePartitionDescriptor(buf: seq<byte>, start: nat): (r: Result<PartitionDescriptor, Error>)
    ensures r.Ok? <==>
      && start + DescriptorSize <= |buf| && TaggedAs(buf, start, PartitionDescriptorId)
      && IsZero(buf[start + 356..start + 512])
    ensures r.Ok? ==>
      && r.value.partitionNumber == ToUint16(buf, start + 22)
      && r.value.partitionStartingLocation == ToUint32(buf, start + 188)
      && r.value.partitionLength == ToUint32(buf, start + 192)
  {
    var tag :- ParseTagOf(buf, start, DescriptorSize, PartitionDescriptorId);
    SliceWithin(buf, start + 356, start + 512);
    if !IsZero(Slice(buf, start + 356, start + 512)) then Err(ReservedNotZero)
    else Ok(PartitionDescriptor(tag, ToUint16(buf, start + 20), ToUint16(buf, start + 22),
                                ToUint32(buf, start + 184), ToUint32(buf, start + 188),
                                ToUint32(buf, start + 192)))
  }

  datatype LogicalVolumeDescriptor = LogicalVolumeDescriptor(
    descriptorTag: DescriptorTag,
    logicalVolumeIdentifier: seq<nat>,
    logicalBlockSize: nat,
    domainIdentifier: seq<byte>,
    logicalVolumeContentsUse: seq<byte>,
    mapTableLength: nat,
    numberOfPartitionMaps: nat,
    rawPartitionMaps: seq<byte>)

  /** The text the domain identifier of a UDF logical volume carries. */
  function OstaCompliant(): seq<byte>
  {
    Ascii("*OSTA UDF Compliant")
  }

  function ParseLogicalVolumeDescriptor(buf: seq<byte>, start: nat): (r: Result<LogicalVolumeDescriptor, Error>)
    ensures r.Ok? <==>
      && start + DescriptorSize <= |buf| && TaggedAs(buf, start, LogicalVolumeDescriptorId)
      && DChars.ToDString(buf, start + 84, 128).Ok?
      && Contains(buf[start + 217..start + 240], OstaCompliant())
    ensures r.Ok? ==>
      && r.value.logicalVolumeIdentifier == DChars.ToDString(buf, start + 84, 128).value
      && r.value.logicalBlockSize == ToUint32(buf, start + 212)
      && r.value.logicalVolumeContentsUse == buf[start + 248..start + 264]
      && r.value.numberOfPartitionMaps == ToUint32(buf, start + 268)
      && r.value.rawPartitionMaps == buf[start + 440..start + 512]
  {
    var tag :- ParseTagOf(buf, start, DescriptorSize, LogicalVolumeDescriptorId);
    var identifier :- DChars.ToDString(buf, start + 84, 128);
    var domain := buf[start + 217..start + 240];
    if !Contains(domain, OstaCompliant()) then Err(NotOstaCompliant)
    else Ok(LogicalVolumeDescriptor(
      tag, identifier, ToUint32(buf, start + 212), domain, buf[start + 248..start + 264],
      ToUint32(buf, start + 264), ToUint32(buf, start + 268), buf[start + 440..start + 512]))
  }

  /** `partition_maps` of a logical volume descriptor. */
  function LogicalVolumePartitionMaps(lvd: LogicalVolumeDescriptor): Result<seq<Type1PartitionMap>, Error>
  {
    PartitionMaps(lvd.rawPartitionMaps, lvd.numberOfPartitionMaps)
  }

  /** `file_set_descriptor_location`: the long allocation descriptor held in
      the logical volume contents use field (UDF 2.60, 2.2.4.4). */
  function FileSetDescriptorLocation(lvd: LogicalVolumeDescriptor): Result<LongAllocationDescriptor, Error>
  {
    ParseLongAllocationDescriptor(lvd.logicalVolumeContentsUse, 0)
  }

  /** A parsed logical volume descriptor always yields a file set location:
      the long allocation descriptor at byte 248 of the descriptor. */
  lemma FileSetDescriptorLocationDefined(buf: seq<byte>, start: nat)
    requires ParseLogicalVolumeDescriptor(buf, start).Ok?
    ensures FileSetDescriptorLocation(ParseLogicalVolumeDescriptor(buf, start).value).Ok?
    ensures FileSetDescriptorLocation(ParseLogicalVolumeDescriptor(buf, start).value) ==
      ParseLongAllocationDescriptor(buf, start + 248)
  {
    SubSliceLongAllocationDescriptor(buf, start + 248);
  }

  lemma SubSliceLongAllocationDescriptor(buf: seq<byte>, at: nat)
    requires at + 16 <= |buf|
    ensures ParseLongAllocationDescriptor(buf[at..at + 16], 0) == ParseLongAllocationDescriptor(buf, at)
  {
    var s := buf[at..at + 16];
    assert forall k :: 0 <= k < 16 ==> s[k] == buf[at + k];
    assert s[0..4] == buf[at..at + 4];
    assert s[4..8] == buf[at + 4..at + 8];
    assert s[8..10] == buf[at + 8..at + 10];
    assert s[10..16] == buf[at + 10..at + 16];
  }

  /** The terminating descriptor only checks its size. */
  function ParseTerminatingDescriptor(buf: seq<byte>, start: nat): (r: Result<(), Error>)
    ensures r.Ok? <==> start + DescriptorSize <= |buf|
  {
    if start + DescriptorSize > |buf| then Err(ShortBuffer) else Ok(())
  }

  datatype FileSetDescriptor = FileSetDescriptor(
    descriptorTag: DescriptorTag,
    logicalVolumeIdentifier: seq<nat>,
    fileSetIdentifier: seq<nat>,
    copyrightFileIdentifier: seq<nat>,
    abstractFileIdentifier: seq<nat>,
    rootDirectoryIcb: LongAllocationDescriptor)

  function ParseFileSetDescriptor(buf: seq<byte>, start: nat): (r: Result<FileSetDescriptor, Error>)
    ensures r.Ok? <==>
      && start + DescriptorSize <= |buf| && TaggedAs(buf, start, FileSetDescriptorId)
      && DChars.ToDString(buf, start + 112, 128).Ok?
      && DChars.ToDString(buf, start + 304, 32).Ok?
      && DChars.ToDString(buf, start + 336, 32).Ok?
      && DChars.ToDString(buf, start + 368, 32).Ok?
      && IsZero(buf[start + 480..start + 512])
    ensures r.Ok? ==> r.value.rootDirectoryIcb == ParseLongAllocationDescriptor(buf, start + 400).value
  {
    var tag :- ParseTagOf(buf, start, DescriptorSize, FileSetDescriptorId);
    var logicalVolumeIdentifier :- DChars.ToDString(buf, start + 112, 128);
    var fileSetIdentifier :- DChars.ToDString(buf, start + 304, 32);
    var copyrightFileIdentifier :- DChars.ToDString(buf, start + 336, 32);
    var abstractFileIdentifier :- DChars.ToDString(buf, start + 368, 32);
    var root := ParseLongAllocationDescriptor(buf, start + 400).value;
    SliceWithin(buf, start + 480, start + 512);
    if !IsZero(Slice(buf, start + 480, start + 512)) then Err(ReservedNotZero)
    else Ok(FileSetDescriptor(tag, logicalVolumeIdentifier, fileSetIdentifier,
                              copyrightFileIdentifier, abstractFileIdentifier, root))
  }
}
