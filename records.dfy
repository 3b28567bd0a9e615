/**
 * The small fixed-layout records of the UDF reader: extent descriptors
 * (ECMA-167 part 3, 7.1), logical block addresses (part 4, 7.1), long and
 * short allocation descriptors (part 4, 14.14), the ICB tag (part 4, 14.6),
 * type-1 partition maps (part 3, 10.7.2), the file identifier descriptor
 * (part 4, 14.4) and the file entry (part 4, 14.9).
 *
 * Each parser first checks that the record fits in the buffer, as
 * `BaseTag._assert_size` does, and then slices its fields at the offsets
 * the Python constructor uses.
 */
module Records {
  import opened Wrappers
  import opened Bytes
  import opened Tags
  import DChars

  /** The largest C `int`, the reader's `MAX_INT`. */
  const MaxInt: nat := 0x7FFF_FFFF

  datatype ExtentDescriptor = ExtentDescriptor(extentLength: nat, extentLocation: nat)

  function ParseExtentDescriptor(buf: seq<byte>, start: nat): (r: Result<ExtentDescriptor, Error>)
    ensures r.Ok? <==> start + 8 <= |buf|
    ensures r.Ok? ==>
      r.value.extentLength == ToUint32(buf, start) &&
      r.value.extentLocation == ToUint32(buf, start + 4)
  {
    if start + 8 > |buf| then Err(ShortBuffer)
    else Ok(ExtentDescriptor(ToUint32(buf, start), ToUint32(buf, start + 4)))
  }

  datatype LogicalBlockAddress = LogicalBlockAddress(logicalBlockNumber: nat, partitionReferenceNumber: nat)

  function ParseLogicalBlockAddress(buf: seq<byte>, start: nat): (r: Result<LogicalBlockAddress, Error>)
    ensures r.Ok? <==> start + 6 <= |buf|
    ensures r.Ok? ==>
      r.value.logicalBlockNumber == ToUint32(buf, start) &&
      r.value.partitionReferenceNumber == ToUint16(buf, start + 4)
  {
    if start + 6 > |buf| then Err(ShortBuffer)
    else Ok(LogicalBlockAddress(ToUint32(buf, start), ToUint16(buf, start + 4)))
  }

  datatype LongAllocationDescriptor = LongAllocationDescriptor(
    extentLength: nat,
    extentLocation: LogicalBlockAddress,
    implementationUse: seq<byte>)

  function ParseLongAllocationDescriptor(buf: seq<byte>, start: nat): (r: Result<LongAllocationDescriptor, Error>)
    ensures r.Ok? <==> start + 16 <= |buf|
    ensures r.Ok? ==>
      && r.value.extentLength == ToUint32(buf, start)
      && r.value.extentLocation.logicalBlockNumber == ToUint32(buf, start + 4)
      && r.value.extentLocation.partitionReferenceNumber == ToUint16(buf, start + 8)
      && r.value.implementationUse == buf[start + 10..start + 16]
  {
    if start + 16 > |buf| then Err(ShortBuffer)
    else
      var location := ParseLogicalBlockAddress(buf, start + 4).value;
      Ok(LongAllocationDescriptor(ToUint32(buf, start), location, buf[start + 10..start + 16]))
  }

  const ExtentLengthUnit: nat := 0x4000_0000

  /** A short allocation descriptor: the low 30 bits of its first word are
      the extent length, the top two bits the extent type. */
  datatype ShortAllocationDescriptor = ShortAllocationDescriptor(
    extentLength: nat,
    extentLocation: nat,
    flags: nat)

  function ParseShortAllocationDescriptor(buf: seq<byte>, start: nat): (r: Result<ShortAllocationDescriptor, Error>)
    ensures r.Ok? <==> start + 8 <= |buf|
    ensures r.Ok? ==>
      && r.value.extentLength < ExtentLengthUnit
      && r.value.flags < 4
      && r.value.flags * ExtentLengthUnit + r.value.extentLength == ToUint32(buf, start)
      && r.value.extentLocation == ToUint32(buf, start + 4)
  {
    if start + 8 > |buf| then Err(ShortBuffer)
    else
      var length := ToUint32(buf, start);
      // `length & 0x3FFFFFFF` and `(length >> 30) & 0x3` on a 32-bit value
      Ok(ShortAllocationDescriptor(length % ExtentLengthUnit, ToUint32(buf, start + 4), length / ExtentLengthUnit))
  }

  /** The source splits the word with `& 0x3FFFFFFF` and `(>> 30) & 0x3`;
      on a 32-bit word these are the remainder and quotient used above. */
  lemma ShortAllocationBits(raw: bv32)
    ensures raw & 0x3FFF_FFFF == raw % 0x4000_0000
    ensures (raw >> 30) & 3 == raw / 0x4000_0000
  {
  }

  datatype ICBTag = ICBTag(
    priorRecordedNumberOfDirectEntries: nat,
    strategyType: nat,
    strategyParameter: seq<byte>,
    maximumNumberOfEntries: nat,
    fileType: nat,
    parentIcbLocation: LogicalBlockAddress,
    allocationType: nat,
    flags: nat)

  // Allocation types held in the low two bits of the ICB tag flags.
  const ShortDescriptors: nat := 0
  const LongDescriptors: nat := 1
  const ExtendedDescriptors: nat := 2
  const Embedded: nat := 3

  // File types of the ICB tag.
  const DirectoryFileType: nat := 4

  /** The ICB tag. `strategy_parameter` is sliced as `[start + 6 : start + 2]`
      in the source, a reversed range, so it is always empty. */
  function ParseICBTag(buf: seq<byte>, start: nat): (r: Result<ICBTag, Error>)
    ensures r.Ok? <==> start + 20 <= |buf| && buf[start + 10] == 0
    ensures r.Ok? ==>
      && r.value.fileType == buf[start + 11] as nat
      && r.value.strategyParameter == []
      && r.value.allocationType < 4
      && r.value.flags % 4 == 0
      && r.value.allocationType + r.value.flags == ToUint16(buf, start + 18)
  {
    if start + 20 > |buf| then Err(ShortBuffer)
    else
      var parent := ParseLogicalBlockAddress(buf, start + 12).value;
      var rawFlags := ToUint16(buf, start + 18);
      var tag := ICBTag(
        ToUint32(buf, start),
        ToUint16(buf, start + 4),
        Slice(buf, start + 6, start + 2),
        ToUint16(buf, start + 8),
        ToUint8(buf, start + 11),
        parent,
        rawFlags % 4,              // `raw_flags & 0x3`
        rawFlags - rawFlags % 4);  // `raw_flags & 0xFFFC`
      if buf[start + 10] != 0 then Err(ReservedNotZero)
      else Ok(tag)
  }

  /** The masks `& 0x3` and `& 0xFFFC` of the source on a 16-bit word: the
      remainder by 4 and the rest, in disjoint bits that recombine to the word. */
  lemma ICBFlagBits(raw: bv16)
    ensures raw & 0x3 == raw % 4
    ensures raw & 0xFFFC == raw - raw % 4
    ensures (raw & 0x3) & (raw & 0xFFFC) == 0
    ensures (raw & 0x3) | (raw & 0xFFFC) == raw
  {
  }

  datatype Type1PartitionMap = Type1PartitionMap(
    partitionMapType: nat,
    partitionMapLength: nat,
    volumeSequenceNumber: nat,
    partitionNumber: nat)

  const Type1PartitionMapSize: nat := 6

  function ParseType1PartitionMap(buf: seq<byte>, start: nat): (r: Result<Type1PartitionMap, Error>)
    ensures r.Ok? <==> start + 6 <= |buf| && buf[start] == 1 && buf[start + 1] == 6
    ensures r.Ok? ==>
      r.value.volumeSequenceNumber == ToUint16(buf, start + 2) &&
      r.value.partitionNumber == ToUint16(buf, start + 4)
  {
    if start + Type1PartitionMapSize > |buf| then Err(ShortBuffer)
    else
      var m := Type1PartitionMap(ToUint8(buf, start), ToUint8(buf, start + 1),
                                 ToUint16(buf, start + 2), ToUint16(buf, start + 4));
      if m.partitionMapType != 1 then Err(BadPartitionMap)
      else if m.partitionMapLength != Type1PartitionMapSize then Err(BadPartitionMap)
      else Ok(m)
  }

  /** Map `i` of a partition-map table is read at byte 6 * i. */
  predicate ValidMapAt(raw: seq<byte>, i: nat)
  {
    6 * i + 6 <= |raw| && raw[6 * i] == 1 && raw[6 * i + 1] == 6
  }

  /** `get_partition_maps` from map `i` on, with `acc` the maps already
      read: each map must be of type 1 and six bytes long. */
  function PartitionMapsFrom(raw: seq<byte>, i: nat, count: nat, acc: seq<Type1PartitionMap>): Result<seq<Type1PartitionMap>, Error>
    decreases count - i
  {
    if i >= count then Ok(acc)
    else if 6 * i >= |raw| then Err(ShortBuffer)
    else if raw[6 * i] != 1 then Err(BadPartitionMap)
    else
      var m :- ParseType1PartitionMap(raw, 6 * i);
      PartitionMapsFrom(raw, i + 1, count, acc + [m])
  }

  function PartitionMaps(raw: seq<byte>, count: nat): Result<seq<Type1PartitionMap>, Error>
  {
    PartitionMapsFrom(raw, 0, count, [])
  }

  lemma {:induction false} PartitionMapsFromShape(raw: seq<byte>, i: nat, count: nat, acc: seq<Type1PartitionMap>)
    requires i <= count
    ensures PartitionMapsFrom(raw, i, count, acc).Ok? <==> forall j :: i <= j < count ==> ValidMapAt(raw, j)
    ensures PartitionMapsFrom(raw, i, count, acc).Ok? ==>
      var maps := PartitionMapsFrom(raw, i, count, acc).value;
      && |maps| == |acc| + count - i
      && maps[..|acc|] == acc
      && forall j :: i <= j < count ==>
           ParseType1PartitionMap(raw, 6 * j).Ok? && maps[|acc| + j - i] == ParseType1PartitionMap(raw, 6 * j).value
    decreases count - i
  {
    if i < count {
      if ValidMapAt(raw, i) {
        var m := ParseType1PartitionMap(raw, 6 * i).value;
        PartitionMapsFromShape(raw, i + 1, count, acc + [m]);
        if PartitionMapsFrom(raw, i, count, acc).Ok? {
          var maps := PartitionMapsFrom(raw, i, count, acc).value;
          assert maps[..|acc| + 1][..|acc|] == maps[..|acc|];
        }
      }
    }
  }

  /** The table is accepted exactly when every one of the `count` maps,
      read at 6 * i, is a type-1 map of length 6; the maps come out in
      table order. */
  lemma PartitionMapsShape(raw: seq<byte>, count: nat)
    ensures PartitionMaps(raw, count).Ok? <==> forall i :: 0 <= i < count ==> ValidMapAt(raw, i)
    ensures PartitionMaps(raw, count).Ok? ==>
      |PartitionMaps(raw, count).value| == count &&
      forall i :: 0 <= i < count ==>
        ParseType1PartitionMap(raw, 6 * i).Ok? && PartitionMaps(raw, count).value[i] == ParseType1PartitionMap(raw, 6 * i).value
  {
    PartitionMapsFromShape(raw, 0, count, []);
  }

  /** `LogicalVolumeDescriptor.get_partition_maps`: read `count` maps from
      the raw table, advancing `part_start` by each map's size. */
  method GetPartitionMaps(raw: seq<byte>, count: nat) returns (r: Result<seq<Type1PartitionMap>, Error>)
    ensures r == PartitionMaps(raw, count)
  {
    var retval: seq<Type1PartitionMap> := [];
    var partStart: nat := 0;
    for i := 0 to count
      invariant partStart == 6 * i
      invariant PartitionMaps(raw, count) == PartitionMapsFrom(raw, i, count, retval)
    {
      if partStart >= |raw| {
        return Err(ShortBuffer);
      }
      var partitionType := raw[partStart];
      if partitionType != 1 {
        return Err(BadPartitionMap);
      }
      var partition := ParseType1PartitionMap(raw, partStart);
      if partition.Err? {
        return Err(partition.error);
      }
      retval := retval + [partition.value];
      partStart := partStart + Type1PartitionMapSize;
    }
    return Ok(retval);
  }

  // File characteristics (ECMA-167 part 4, 14.4.3).
  const DeletedCharacteristic: nat := 0x04
  const ParentCharacteristic: nat := 0x08

  datatype FileIdentifierDescriptor = FileIdentifierDescriptor(
    descriptorTag: DescriptorTag,
    fileVersionNumber: nat,
    fileCharacteristics: byte,
    lengthOfFileIdentifier: nat,
    icb: LongAllocationDescriptor,
    lengthOfImplementationUse: nat,
    implementationUse: seq<byte>,
    fileIdentifier: seq<nat>,
    roundedSize: nat)

  /** `FileIdentifierDescriptor(buffer, start)`. Its size is variable, so no
      size is checked up front; each fixed-width read fails on its own when
      the buffer is short. The record occupies 38 bytes, the implementation
      use and the identifier, padded to a multiple of four. */
  function ParseFileIdentifierDescriptor(buf: seq<byte>, start: nat): (r: Result<FileIdentifierDescriptor, Error>)
    ensures r.Ok? <==>
      && ParseDescriptorTag(buf, start).Ok?
      && ParseDescriptorTag(buf, start).value.tagIdentifier == FileIdentifierDescriptorId
      && start + 38 <= |buf|
      && DChars.DChars(buf, start + 38 + ToUint16(buf, start + 36), ToUint8(buf, start + 19)).Ok?
    ensures r.Ok? ==>
      start + 38 <= |buf| && r == FileIdentifierFields(buf, start, ParseDescriptorTag(buf, start).value)
    ensures r.Ok? ==>
      var d := r.value;
      && d.roundedSize % 4 == 0
      && 38 + d.lengthOfImplementationUse + d.lengthOfFileIdentifier <= d.roundedSize
      && d.roundedSize < 38 + d.lengthOfImplementationUse + d.lengthOfFileIdentifier + 4
      && d.roundedSize >= 40
  {
    var tag :- ParseDescriptorTag(buf, start);
    if tag.tagIdentifier != FileIdentifierDescriptorId then Err(WrongTagIdentifier)
    else if start + 38 > |buf| then Err(ShortBuffer)
    else FileIdentifierFields(buf, start, tag)
  }

  /** The fields after the tag, once the fixed 38 bytes are known to fit. */
  function FileIdentifierFields(buf: seq<byte>, start: nat, tag: DescriptorTag): (r: Result<FileIdentifierDescriptor, Error>)
    requires start + 38 <= |buf|
    ensures r.Ok? <==> DChars.DChars(buf, start + 38 + ToUint16(buf, start + 36), ToUint8(buf, start + 19)).Ok?
    ensures r.Ok? ==>
      var d := r.value;
      && d.descriptorTag == tag
      && d.fileCharacteristics == buf[start + 18]
      && d.lengthOfFileIdentifier == buf[start + 19] as nat
      && d.lengthOfImplementationUse == ToUint16(buf, start + 36)
      && d.icb == ParseLongAllocationDescriptor(buf, start + 20).value
      && d.fileIdentifier ==
           DChars.DChars(buf, start + 38 + d.lengthOfImplementationUse, d.lengthOfFileIdentifier).value
      && d.roundedSize == RoundUp(38 + d.lengthOfImplementationUse + d.lengthOfFileIdentifier, 4)
  {
    var icb := ParseLongAllocationDescriptor(buf, start + 20).value;
    var lengthOfFileIdentifier := ToUint8(buf, start + 19);
    var lengthOfImplementationUse := ToUint16(buf, start + 36);
    var s := start + 38 + lengthOfImplementationUse;
    var fileIdentifier :- DChars.DChars(buf, s, lengthOfFileIdentifier);
    var size := RoundUp(38 + lengthOfImplementationUse + lengthOfFileIdentifier, 4);
    Ok(FileIdentifierDescriptor(
      tag, ToUint16(buf, start + 16), buf[start + 18], lengthOfFileIdentifier, icb,
      lengthOfImplementationUse, Slice(buf, start + 38, s), fileIdentifier, size))
  }

  datatype FileEntry = FileEntry(
    descriptorTag: DescriptorTag,
    icbTag: ICBTag,
    informationLength: nat,
    lengthOfExtendedAttributes: nat,
    lengthOfAllocationDescriptors: nat,
    allocationDescriptors: seq<byte>)

  const FileEntrySize: nat := 300

  /** `FileEntry(buffer, start)`. The allocation-descriptor length is read
      as the four bytes at offset 173, one byte past the field ECMA-167
      part 4, 14.9 places at offset 172; the descriptors themselves are
      sliced from offset 176 plus the extended-attribute length, clamped to
      the buffer. */
  function ParseFileEntry(buf: seq<byte>, start: nat): (r: Result<FileEntry, Error>)
    ensures r.Ok? <==>
      && start + FileEntrySize <= |buf|
      && ParseDescriptorTag(buf, start).Ok?
      && ParseDescriptorTag(buf, start).value.tagIdentifier == FileEntryId
      && ParseICBTag(buf, start + 16).Ok?
    ensures r.Ok? ==>
      var e := r.value;
      && e.descriptorTag == ParseDescriptorTag(buf, start).value
      && e.icbTag == ParseICBTag(buf, start + 16).value
      && e == FileEntryFields(buf, start, e.descriptorTag, e.icbTag)
  {
    if start + FileEntrySize > |buf| then Err(ShortBuffer)
    else
      var tag :- ParseDescriptorTag(buf, start);
      if tag.tagIdentifier != FileEntryId then Err(WrongTagIdentifier)
      else
        var icbTag :- ParseICBTag(buf, start + 16);
        Ok(FileEntryFields(buf, start, tag, icbTag))
  }

  /** The fields after the ICB tag; the record is known to fit. */
  function FileEntryFields(buf: seq<byte>, start: nat, tag: DescriptorTag, icbTag: ICBTag): (e: FileEntry)
    requires start + FileEntrySize <= |buf|
    ensures e.descriptorTag == tag && e.icbTag == icbTag
    ensures e.informationLength == ToUint64(buf, start + 56)
    ensures e.lengthOfExtendedAttributes == ToUint32(buf, start + 168)
    ensures e.lengthOfAllocationDescriptors == ToUint32(buf, start + 173)
    ensures e.allocationDescriptors ==
      Slice(buf, start + 176 + e.lengthOfExtendedAttributes,
                 start + 176 + e.lengthOfExtendedAttributes + e.lengthOfAllocationDescriptors)
  {
    var lengthOfExtendedAttributes := ToUint32(buf, start + 168);
    var lengthOfAllocationDescriptors := ToUint32(buf, start + 173);
    var adStart := start + 176 + lengthOfExtendedAttributes;
    FileEntry(tag, icbTag, ToUint64(buf, start + 56), lengthOfExtendedAttributes,
              lengthOfAllocationDescriptors,
              Slice(buf, adStart, adStart + lengthOfAllocationDescriptors))
  }

  /** The word read at offset 173 is the standard's allocation-descriptor
      length (offset 172) without its low byte, with byte 176 on top. */
  lemma AllocationLengthOffsetBy1(buf: seq<byte>, start: nat)
    requires start + FileEntrySize <= |buf|
    ensures ToUint32(buf, start + 173) ==
      ToUint32(buf, start + 172) / 0x100 + buf[start + 176] as nat * 0x100_0000
  {
  }
}
