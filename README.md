# PlayStation 2 disc identification, modelled in Dafny

This project models the two layers that identify a Sony PlayStation 2 game
from a disc image. The image is an immutable byte sequence, and every
`seek` followed by `read` is a clamped slice of it (`Bytes.Slice`, Python's
`s[lo:hi]`).

* **The UDF reader** (`read_udf.py`) decodes ECMA-167 / OSTA UDF structures:
  - little-endian integers and OSTA compressed-unicode d-characters;
  - descriptor tags, with their checksum, identifier and reserved-byte checks;
  - extent, long and short allocation descriptors, the ICB tag, type-1
    partition maps, file identifier descriptors and file entries;
  - the volume descriptors, with the anchor, primary, partition, logical
    volume, terminating and file set descriptors;
  - the walk of a short-allocation-descriptor list into contiguous extents,
    `find_extent` and `read_from_extents`;
  - the directory walk that drops deleted and parent entries;
  - the volume recognition scan and the sector-size probe at sector 256;
  - the descriptor scan of `read_udf_file`. It gathers the logical volume,
    partitions and terminator, then opens the logical volume and reads the
    root directory.
* **Serial identification** (`identify_playstation2_games.py`):
  - the raw scan `_find_in_binary` for a `PREFIX[_|-][\d|.]+;` token, in
    10 MiB pages that overlap by 6 bytes, with the `999.99` rejection;
  - the extension check;
  - the DVD → CD → Binary fallback that sets the disc type;
  - serial normalisation (upper case, no `.`, `_` → `-`);
  - the prefix whitelist;
  - the first-hit lookup through the Asia, Australia, Europe, Japan, Korea
    and USA tables.

## How the model is built

Modules follow the source's structure:
* `Bytes`: the byte type, the decoders, `round_up`, slices and the error kinds;
* `DChars` and `Tags`: d-characters and descriptor tags;
* `Records` and `VolumeDescriptors`: the record constructors;
* `Extents`: `FileContentBuffer`;
* `Directories`: `Directory.__init__`;
* `Recognition`: `is_valid_udf` and `get_sector_size`;
* `Mount`: `read_udf_file`;
* `Serials`: `PREFIXES`, `_find_in_binary`, normalisation and the region tables;
* `Identification`: `get_playstation2_game_info`.

Each loop of the source is a `method` with a `while` or `for` loop. The loops are:
* `to_dchars`;
* `_assert_checksum`;
* `_assert_reserve_space`;
* `get_partition_maps`;
* `load_extents`;
* `find_extent`;
* `read_from_extents`;
* the directory walk;
* `is_valid_udf`;
* `get_sector_size`;
* the descriptor scan;
* the `logical_partitions` loop;
* the prefix and page loops of `_find_in_binary`;
* the entry-collecting and candidate loops of `get_playstation2_game_info`.

Each such method is proved equal to a recursive specification function, and
the lemmas are stated about those functions.

The objects of the source are built once and never changed afterwards, so
they are modelled as values: `Directory`, `FileContentBuffer`, the
descriptors and the `UdfContext` dictionaries. Exceptions are `Result`
values: `Bytes.Error` for the reader and `Identification.Failure` for the
identifier. A `try`/`except` that swallows an exception becomes a branch on
`Err`.

Three scans are stated for any reader of the right shape, each with a
`ghost predicate` of what the reader must promise:
* `Directories.Reader` / `Advances`;
* `Mount.Visitor` / `Grows`;
* the prefix list of the serial scan.

A lemma shows that the concrete reader meets its predicate, and a thin
wrapper names the concrete instance, for example `Mount.ScanImage` or
`Serials.FindInBinary`.

## Model

| member | source | states |
|---|---|---|
| Bytes.ToUint8 | identify_playstation2_games/read_udf.py:46-47 | the value of one byte, below 2^8 |
| Bytes.ToUint16 | identify_playstation2_games/read_udf.py:49-52 | the 16-bit value is below 2^16 |
| Bytes.ToUint32 | identify_playstation2_games/read_udf.py:54-59 | the 32-bit value is below 2^32 |
| Bytes.ToUint64 | identify_playstation2_games/read_udf.py:61-70 | the 64-bit value is below 2^64 |
| Bytes.ToUint16IsLittleEndian | identify_playstation2_games/read_udf.py:49-52 | `to_uint16` is b0 + 256·b1, the little-endian value of its two bytes |
| Bytes.ToUint32IsLittleEndian | identify_playstation2_games/read_udf.py:54-59 | `to_uint32` is Σ b_i·256^i over its four bytes |
| Bytes.ToUint64IsLittleEndian | identify_playstation2_games/read_udf.py:61-70 | `to_uint64` is Σ b_i·256^i over its eight bytes |
| Bytes.DecodersAreLittleEndian | identify_playstation2_games/read_udf.py:46-70 | all four decoders are little-endian values, each below 256^n |
| Bytes.LittleEndianBound | identify_playstation2_games/read_udf.py:46-70 | the little-endian value of n bytes is below 256^n |
| Bytes.RoundUp | identify_playstation2_games/read_udf.py:72-73 | the result is a multiple of `unit` in [value, value + unit) |
| Bytes.RoundUpIsLeast | identify_playstation2_games/read_udf.py:72-73 | no multiple of `unit` at least `value` is below `round_up(value, unit)` |
| Bytes.Slice | identify_playstation2_games/read_udf.py:771-772 | a seek and read gives the bytes from `lo`, clamped to the image, and no more than `hi - lo` of them |
| DChars.DChars | identify_playstation2_games/read_udf.py:79-110 | count 0 gives no units; a field that fits with algorithm byte 8 or 16 is decoded, and fails only when a unit is a surrogate that UTF-8 cannot encode, which only algorithm 16 can produce; any other algorithm byte is the corrupt-string error; a decoded string holds no surrogate |
| DChars.DecodeNarrow | identify_playstation2_games/read_udf.py:90-102 | with algorithm 8 every byte after the algorithm byte is one code unit |
| DChars.DecodeWide | identify_playstation2_games/read_udf.py:90-102 | with algorithm 16 unit k is the big-endian pair at 2k, and a lone last byte is `hi << 8` |
| DChars.NarrowEncodable | identify_playstation2_games/read_udf.py:90-109 | no unit of algorithm 8 is a surrogate, so such a field always encodes |
| DChars.DCharsShape | identify_playstation2_games/read_udf.py:79-110 | algorithm 8 always succeeds with count−1 units, one per byte; algorithm 16 succeeds exactly when none of its ⌊count/2⌋ big-endian pairs is a surrogate, gives those pairs, and otherwise is the unencodable-unit error |
| DChars.DCharsRoundTrip | identify_playstation2_games/read_udf.py:79-110 | decoding a field written in compressed form gives back its code units, when none is a surrogate |
| DChars.DecodeEncodeUnits | identify_playstation2_games/read_udf.py:90-102 | the unit decoder inverts the unit encoder |
| DChars.ToDChars | identify_playstation2_games/read_udf.py:79-110 | the `pos` loop of `to_dchars` and the encoding of each unit compute `DChars` |
| DChars.DecodeLoop | identify_playstation2_games/read_udf.py:88-102 | the `pos` loop yields the decoded units of the field when it fits, and the short-buffer error of `to_uint8` otherwise |
| DChars.CheckEncodable | identify_playstation2_games/read_udf.py:104-108 | encoding the units succeeds exactly when none is a surrogate |
| DChars.ToDString | identify_playstation2_games/read_udf.py:75-77 | a d-string takes its length from the last byte of its field; a field past the buffer is a short-buffer error |
| Tags.ComputeTagChecksum | identify_playstation2_games/read_udf.py:133-144 | the loop sums bytes 0–3 and 5–15 and truncates the sum to a byte, giving the standard's checksum |
| Tags.ParseDescriptorTag | identify_playstation2_games/read_udf.py:216-234 | a tag is accepted exactly when its 16 bytes fit, its identifier is non-zero, byte 4 is the checksum and byte 5 is zero; the fields are the little-endian words at their offsets |
| Tags.SealedTagAccepted | identify_playstation2_games/read_udf.py:133-147 | writing the checksum into byte 4 of a tag with a non-zero identifier and a zero reserved byte makes it accepted |
| Tags.TamperedTagRejected | identify_playstation2_games/read_udf.py:146-147 | changing the checksum byte of an accepted tag makes it a checksum mismatch |
| Tags.AssertReserveSpace | identify_playstation2_games/read_udf.py:155-160 | `_assert_reserve_space` passes exactly when every byte of the clamped range is zero |
| Records.ParseExtentDescriptor | identify_playstation2_games/read_udf.py:238-243 | accepted exactly when 8 bytes fit; length and location are the two words |
| Records.ParseLogicalBlockAddress | identify_playstation2_games/read_udf.py:449-453 | accepted exactly when 6 bytes fit; block number and partition reference are at 0 and 4 |
| Records.ParseLongAllocationDescriptor | identify_playstation2_games/read_udf.py:439-445 | accepted exactly when 16 bytes fit; length, block address and implementation use are at 0, 4 and 10 |
| Records.ParseShortAllocationDescriptor | identify_playstation2_games/read_udf.py:574-580 | accepted exactly when 8 bytes fit; the length is below 2^30, the flags below 4, and flags·2^30 + length recombine to the first word |
| Records.ShortAllocationBits | identify_playstation2_games/read_udf.py:579-580 | `raw & 0x3FFFFFFF` is raw mod 2^30 and `(raw >> 30) & 3` is raw div 2^30 |
| Records.ParseICBTag | identify_playstation2_games/read_udf.py:548-563 | accepted exactly when 20 bytes fit and byte 10 is zero; the strategy parameter is empty; allocation type and flags split the word at 18 |
| Records.ICBFlagBits | identify_playstation2_games/read_udf.py:559-561 | `raw & 3` and `raw & 0xFFFC` are disjoint and recombine to raw |
| Records.ParseType1PartitionMap | identify_playstation2_games/read_udf.py:464-477 | accepted exactly when 6 bytes fit, the type is 1 and the length is 6 |
| Records.PartitionMapsShape | identify_playstation2_games/read_udf.py:414-429 | the table is accepted exactly when each of the `count` maps at 6·i is a valid type-1 map, and map i is the one read at 6·i |
| Records.GetPartitionMaps | identify_playstation2_games/read_udf.py:414-429 | the `part_start` loop computes `PartitionMaps` |
| Records.ParseFileIdentifierDescriptor | identify_playstation2_games/read_udf.py:720-740 | accepted exactly when the tag is a file identifier tag, 38 bytes fit and the identifier decodes; `rounded_size` is a multiple of 4, at least 40, and the least one covering the record |
| Records.FileIdentifierFields | identify_playstation2_games/read_udf.py:729-740 | characteristics, lengths, ICB, identifier and rounded size are read at their offsets |
| Records.ParseFileEntry | identify_playstation2_games/read_udf.py:498-525 | accepted exactly when 300 bytes fit, the tag is a file entry tag and the ICB tag is accepted |
| Records.FileEntryFields | identify_playstation2_games/read_udf.py:513-525 | information length at 56; allocation-descriptor length read at offset 173; the descriptors follow the extended attributes |
| Records.AllocationLengthOffsetBy1 | identify_playstation2_games/read_udf.py:523 | the word read at 173 is the standard's length at 172 shifted by a byte, with byte 176 on top |
| VolumeDescriptors.ParseTagOf | identify_playstation2_games/read_udf.py:124-130 | a descriptor is accepted exactly when its size fits and its tag is accepted with the expected identifier |
| VolumeDescriptors.ParseAnchorVolumeDescriptorPointer | identify_playstation2_games/read_udf.py:247-258 | accepted exactly when 512 bytes fit, the tag says anchor and bytes 32–511 are zero; the main and reserve extents are at 16 and 24 |
| VolumeDescriptors.ParsePrimaryVolumeDescriptor | identify_playstation2_games/read_udf.py:328-357 | accepted exactly when the tag, both d-strings and the reserved tail check out |
| VolumeDescriptors.ParsePartitionDescriptor | identify_playstation2_games/read_udf.py:362-385 | accepted exactly when the tag and the reserved tail check out; number, start and length at 22, 188 and 192 |
| VolumeDescriptors.ParseLogicalVolumeDescriptor | identify_playstation2_games/read_udf.py:390-411 | accepted exactly when the tag and identifier check out and the domain identifier contains `*OSTA UDF Compliant` |
| VolumeDescriptors.FileSetDescriptorLocationDefined | identify_playstation2_games/read_udf.py:433-435 | the file set location of an accepted logical volume descriptor is the long allocation descriptor at 248 |
| VolumeDescriptors.ParseTerminatingDescriptor | identify_playstation2_games/read_udf.py:456-460 | it only checks that 512 bytes fit |
| VolumeDescriptors.ParseFileSetDescriptor | identify_playstation2_games/read_udf.py:298-324 | accepted exactly when the tag, the four d-strings and the reserved tail check out; the root ICB is at 400 |
| Extents.ExtentsShape | identify_playstation2_games/read_udf.py:600-625 | extents exist only for short descriptors; they are laid end to end from position 0, extent k is descriptor k with `start_pos` = location × block size, and the list stops at the end or at a zero length |
| Extents.ExtentsFromStep | identify_playstation2_games/read_udf.py:609-619 | a descriptor with non-zero length has zero flags and adds one extent at the running file position |
| Extents.ExtentsFromContiguous | identify_playstation2_games/read_udf.py:607-619 | each extent's file offset is the sum of the lengths before it |
| Extents.ExtentsFromCooked | identify_playstation2_games/read_udf.py:609-619 | extent k is what descriptor k cooks into, and the walk stops where the list ends |
| Extents.LoadExtents | identify_playstation2_games/read_udf.py:600-625 | the `while` loop computes `FileExtents` |
| Extents.FirstExtentCoveringIsFirst | identify_playstation2_games/read_udf.py:671-676 | an extent is found exactly when one ends beyond `pos`, and it is the first such |
| Extents.FirstExtentFromIsFirst | identify_playstation2_games/read_udf.py:671-676 | the index found is the least from k on whose extent ends beyond `pos` |
| Extents.FindExtent | identify_playstation2_games/read_udf.py:671-676 | the `for` loop computes `FirstExtentCovering` |
| Extents.FoundExtentHolds | identify_playstation2_games/read_udf.py:671-676 | on contiguous extents the found extent contains `pos`, and none is found exactly past the end |
| Extents.Chunk | identify_playstation2_games/read_udf.py:652-663 | one round reads at most what remains |
| Extents.Round | identify_playstation2_games/read_udf.py:650-663 | a round reads at most what remains |
| Extents.RoundFound | identify_playstation2_games/read_udf.py:650-663 | a round reads from the extent `find_extent` returns |
| Extents.ReadLoopNoExtent | identify_playstation2_games/read_udf.py:650 | a round at a position no extent holds is an error |
| Extents.ReadLoopFound | identify_playstation2_games/read_udf.py:649-669 | an empty read ends the loop with that read; otherwise the loop goes on with the chunk as its buffer |
| Extents.ReadFromExtents | identify_playstation2_games/read_udf.py:644-669 | the `while` loop computes `ReadExtents` |
| Extents.ReadWithinOneExtent | identify_playstation2_games/read_udf.py:644-669 | a read inside the first extent gives exactly the bytes at its start position |
| Extents.ReadAcrossTwoExtentsKeepsLast | identify_playstation2_games/read_udf.py:663-669 | a read across two extents returns only the second extent's bytes |
| Directories.KeptIsMask | identify_playstation2_games/read_udf.py:756 | `Kept` is the bitwise test `characteristics & (0x04 \| 0x08) == 0` |
| Directories.KeptIsNeitherDeletedNorParent | identify_playstation2_games/read_udf.py:711-716 | an entry is kept exactly when neither the deleted bit nor the parent bit is set |
| Directories.MaskBits | identify_playstation2_games/read_udf.py:756 | the two flag bits of a byte are clear exactly when bits 2 and 3 of its value are zero |
| Directories.FileIdentifierReaderAdvances | identify_playstation2_games/read_udf.py:740 | every accepted file identifier descriptor moves the walk on by at least 40 bytes |
| Directories.WalkIsFilteredRecords | identify_playstation2_games/read_udf.py:752-759 | the walk fails with the error of the first bad record; otherwise it yields the kept records in on-disc order |
| Directories.FilterKeepsExactly | identify_playstation2_games/read_udf.py:756-757 | a record is kept exactly when it is recorded and neither deleted nor parent |
| Directories.FilterAppend | identify_playstation2_games/read_udf.py:756-757 | filtering works record by record |
| Directories.DirectoryEntriesShape | identify_playstation2_games/read_udf.py:749-759 | the entries are the filtered records, and none of them is deleted or a parent |
| Directories.FilterDropsDeletedAndParents | identify_playstation2_games/read_udf.py:756-757 | every filtered record is recorded and neither deleted nor a parent |
| Directories.RecordsAdvance | identify_playstation2_games/read_udf.py:752-759 | a content of n bytes holds fewer than n/40 + 1 records, so the walk ends |
| Directories.Walk | identify_playstation2_games/read_udf.py:752-759 | the `pos` loop computes `WalkFrom` for any reader that advances |
| Directories.ReadDirectoryEntries | identify_playstation2_games/read_udf.py:752-759 | the walk with the file identifier parser computes `DirectoryEntries` |
| Directories.DirectoryNeedsShortDescriptorsAndSize | identify_playstation2_games/read_udf.py:620-625 | a directory without short descriptors is unsupported, and one larger than `MAX_INT` is too big |
| Directories.ReadDirectory | identify_playstation2_games/read_udf.py:744-759 | builds the directory: its extents, its content read through them and the walk |
| Recognition.ScanFromSees | identify_playstation2_games/read_udf.py:792-815 | the scan from sector k answers true exactly when each of BEA01, NSR0x and TEA01 is already set or is seen from k on |
| Recognition.IsValidUdfSees | identify_playstation2_games/read_udf.py:777-815 | an image is valid UDF exactly when the scan reads a BEA01, an NSR02/NSR03 and a TEA01 sector; an image shorter than 32768+2048 never is |
| Recognition.SeenNothingPastUnrecognised | identify_playstation2_games/read_udf.py:812-813 | an unrecognised identifier ends the scan |
| Recognition.SeenNothingPastEnd | identify_playstation2_games/read_udf.py:794-796 | a short read ends the scan: a scan that sees any descriptor starts at a whole sector |
| Recognition.SeenStep | identify_playstation2_games/read_udf.py:804-811 | past a recognised sector a kind is seen when that sector has it or a later one does |
| Recognition.IsValidUdfScan | identify_playstation2_games/read_udf.py:777-815 | the `while` loop computes `IsValidUdf` |
| Recognition.GetSectorSizeIsFirst | identify_playstation2_games/read_udf.py:818-848 | a size is found exactly when one of 4096, 2048, 1024, 512 has an anchor tag at sector 256 with location 256; it is the first such, and otherwise the result is the no-sector-size error |
| Recognition.SectorSizeFromFound | identify_playstation2_games/read_udf.py:820-848 | from size i on, a size is found exactly when one has an anchor |
| Recognition.SectorSizeFromHasAnchor | identify_playstation2_games/read_udf.py:820-848 | the size found has an anchor at its sector 256 and is at least 512 |
| Recognition.FindSectorSize | identify_playstation2_games/read_udf.py:818-848 | the `for` loop computes `GetSectorSize` |
| Mount.Examine | identify_playstation2_games/read_udf.py:903-926 | identifier 0 and the descriptors the scan passes over find nothing, an identifier above 9 is the unexpected-descriptor error, and only a partition, logical volume or terminating descriptor finds something |
| Mount.Record | identify_playstation2_games/read_udf.py:903-926 | recording a descriptor only adds partitions, and a logical volume, a partition descriptor or a terminator once found stays found; it fails exactly when the descriptor cannot be parsed or its identifier is unexpected |
| Mount.Apply | identify_playstation2_games/read_udf.py:911-926 | a partition descriptor is stored under its number and kept, a logical volume or terminator is kept, anything else leaves the state alone; nothing found before is lost |
| Mount.Visit | identify_playstation2_games/read_udf.py:886-926 | a sector that is read never takes away a partition, a logical volume, a partition descriptor or a terminator already found |
| Mount.VisitGrows | identify_playstation2_games/read_udf.py:886-926 | one sector of the scan only adds to what was found |
| Mount.ScanGrows | identify_playstation2_games/read_udf.py:886-929 | the whole scan only adds to what was found |
| Mount.ScanKeepsPartitionBeforeVolume | identify_playstation2_games/read_udf.py:886-929 | the scan never hands over a logical volume without a partition descriptor |
| Mount.ScannedKeepsPartitionBeforeVolume | identify_playstation2_games/read_udf.py:884-936 | after recognition, the sector size and the scan, a logical volume always comes with a partition descriptor |
| Mount.ScannedWithKeepsPartitionBeforeVolume | identify_playstation2_games/read_udf.py:860-929 | recognition, sector size, anchor and scan, with any visitor that only adds, never hand over a logical volume without a partition descriptor |
| Mount.AnchorScanKeepsPartitionBeforeVolume | identify_playstation2_games/read_udf.py:870-929 | the scan from the anchor never hands over a logical volume without a partition descriptor, for any visitor that only adds |
| Mount.Scan | identify_playstation2_games/read_udf.py:886-929 | the sector loop computes `ScanFrom` for any visitor |
| Mount.LogicalPartitions | identify_playstation2_games/read_udf.py:278-290 | every map names a known physical partition, or the result is the no-such-partition error; partition i uses map i |
| Mount.BuildLogicalPartitions | identify_playstation2_games/read_udf.py:942-943 | the loop computes `LogicalPartitions` |
| Mount.ReadExtent | identify_playstation2_games/read_udf.py:766-773 | reads at most the extent's length, from the partition start plus block × block size; an extent fully in the image is read exactly |
| Mount.RootIsDirectoryFileEntry | identify_playstation2_games/read_udf.py:688-700 | the root is read only from an extent whose tag is a file entry of directory type |
| Mount.AnchorChecksPass | identify_playstation2_games/read_udf.py:864-877 | once a sector size is found, the image holds 257 sectors and sector 256 starts with an anchor tag |
| Mount.AnchorSectorHoldsTag | identify_playstation2_games/read_udf.py:873-877 | the anchor sector read as 512 bytes starts with the anchor tag |
| Mount.ReadUdfNeedsAllDescriptors | identify_playstation2_games/read_udf.py:851-957 | a root directory is returned only for a valid UDF image with a sector size whose scan found a logical volume, a partition and a terminator |
| Mount.OpenRootDirectory | identify_playstation2_games/read_udf.py:688-700 | computes `RootDirectory` |
| Mount.OpenVolume | identify_playstation2_games/read_udf.py:931-939 | the three missing-descriptor checks, then opening the volume, compute `Open` |
| Mount.OpenPartitions | identify_playstation2_games/read_udf.py:941-957 | computes `OpenLogicalVolume` |
| Mount.ScanImageWith | identify_playstation2_games/read_udf.py:860-929 | recognition, sector size, anchor and scan compute `ScannedWith` |
| Mount.ScanFromAnchor | identify_playstation2_games/read_udf.py:870-929 | reading the anchor and scanning from the sequence it points to computes `ScannedFromAnchor` |
| Mount.ScanImage | identify_playstation2_games/read_udf.py:860-929 | the scan with the descriptor constructors computes `Scanned` |
| Mount.ReadUdfFile | identify_playstation2_games/read_udf.py:851-957 | computes `ReadUdf` |
| Serials.RunLength | identify_playstation2_games/identify_playstation2_games.py:163 | `[\d\|\.]+` matches a maximal run of digits, bars and dots |
| Serials.MatchAtIsToken | identify_playstation2_games/identify_playstation2_games.py:163 | the pattern matches at i up to e exactly when those bytes are a token: prefix, separator, number run and `;` |
| Serials.SearchFrom | identify_playstation2_games/identify_playstation2_games.py:163 | a found match lies in the buffer and is a match of the pattern |
| Serials.SearchFromIsLeftmost | identify_playstation2_games/identify_playstation2_games.py:163 | `re.search` finds a token, and no token starts earlier |
| Serials.SearchFromNone | identify_playstation2_games/identify_playstation2_games.py:163 | nothing is found only when the buffer holds no token of the prefix |
| Serials.Clean | identify_playstation2_games/identify_playstation2_games.py:166 | the cleaned token has no `.`, `;` or `_` |
| Serials.CleanAppend | identify_playstation2_games/identify_playstation2_games.py:166 | cleaning works byte by byte |
| Serials.SerialFromNone | identify_playstation2_games/identify_playstation2_games.py:162-169 | a buffer has no serial exactly when no prefix has a match free of `999.99` |
| Serials.SerialFromIsFirst | identify_playstation2_games/identify_playstation2_games.py:162-169 | the serial is the cleaned token of the first prefix in list order with an accepted match, so an earlier prefix wins wherever it occurs |
| Serials.SearchPrefixesIn | identify_playstation2_games/identify_playstation2_games.py:162-169 | the prefix loop computes `SerialFrom` |
| Serials.SearchPrefixes | identify_playstation2_games/identify_playstation2_games.py:42-96 | the prefix loop over `PREFIXES` computes `SerialIn` |
| Serials.NextPage | identify_playstation2_games/identify_playstation2_games.py:156-172 | the scan always moves forward |
| Serials.PagesOverlap | identify_playstation2_games/identify_playstation2_games.py:148-172 | a page that ends inside the image is a full 10 MiB read, the next starts 6 bytes before its end, and the two share those 6 bytes |
| Serials.SinglePage | identify_playstation2_games/identify_playstation2_games.py:146-174 | an image of at most one page is searched as one buffer, and an empty image has no serial |
| Serials.PagesFrom | identify_playstation2_games/identify_playstation2_games.py:146-174 | every position the raw scan reads a page at lies inside the image, at or after where it started |
| Serials.PagesFromAreTheSteps | identify_playstation2_games/identify_playstation2_games.py:146-174 | the pages read start at the start position, each next one is where the loop seeks or reads on to after the one before, and the step after the last leaves the image; none at all exactly when the start is at the end |
| Serials.FirstPresentIsFirst | identify_playstation2_games/identify_playstation2_games.py:146-174 | the first present value along a list of positions is None exactly when none is present, and otherwise the value at the first position where one is |
| Serials.ScanPagesFromIsFirstPresent | identify_playstation2_games/identify_playstation2_games.py:146-174 | the raw scan returns the first serial present among the pages it reads, in reading order |
| Serials.ScanPagesFromIsFirst | identify_playstation2_games/identify_playstation2_games.py:146-174 | the raw scan finds nothing exactly when no page it reads yields a serial; otherwise its serial is that of a page it reads, and every page read before that one yields nothing |
| Serials.FindInPages | identify_playstation2_games/identify_playstation2_games.py:146-174 | the page loop computes `ScanPagesFrom` |
| Serials.FindInBinary | identify_playstation2_games/identify_playstation2_games.py:143-174 | computes `BinarySerial` |
| Serials.Normalise | identify_playstation2_games/identify_playstation2_games.py:217 | the serial has no `.`, no `_` and no lower-case letter |
| Serials.NormaliseIdempotent | identify_playstation2_games/identify_playstation2_games.py:217 | normalising twice is normalising once |
| Serials.NormaliseFixed | identify_playstation2_games/identify_playstation2_games.py:217 | a name with no lower-case letter, `.` or `_` is its own serial |
| Serials.NormaliseAppend | identify_playstation2_games/identify_playstation2_games.py:217 | normalisation works byte by byte |
| Serials.BeforeDash | identify_playstation2_games/identify_playstation2_games.py:220 | `split(b'-')[0]` is the longest prefix without `-`, followed by `-` when shorter than the serial |
| Serials.BeforeDashOf | identify_playstation2_games/identify_playstation2_games.py:220 | the part before the first `-` of `p-rest` is `p` when `p` has no `-` |
| Serials.BeforeDashNoDash | identify_playstation2_games/identify_playstation2_games.py:220 | a serial without `-` is its own part before the first `-` |
| Serials.MixedCasePrefixNeverPasses | identify_playstation2_games/identify_playstation2_games.py:217-221 | no normalised entry has `Sierra` before its first `-`: the upper-casing rules it out |
| Serials.CleanToken | identify_playstation2_games/identify_playstation2_games.py:163-166 | a cleaned token is the prefix, `-` or `\|`, then digits and bars |
| Serials.BinarySerialPrefix | identify_playstation2_games/identify_playstation2_games.py:163-220 | a raw-scan serial with separator `_` or `-` passes the decisive part of the filter: its text before the first `-` is its prefix |
| Serials.BarSerialHasNoDash | identify_playstation2_games/identify_playstation2_games.py:163-220 | a raw-scan serial with separator `\|` has no `-`, so the filter compares the whole serial with the prefixes |
| Serials.Lookup | identify_playstation2_games/identify_playstation2_games.py:224-242 | a hit gives a region whose table holds the serial and that table's title; there is no hit exactly when no table holds it |
| Serials.LookupIsFirst | identify_playstation2_games/identify_playstation2_games.py:225-242 | no table earlier in the order as, au, eu, jp, ko, us holds the serial |
| Identification.LastIndexOf | identify_playstation2_games/identify_playstation2_games.py:179 | the last index of the character, or −1 when it does not occur |
| Identification.Extension | identify_playstation2_games/identify_playstation2_games.py:179 | a non-empty extension is a suffix that starts with `.` and has no other `.` or `/` |
| Identification.ExtensionOfName | identify_playstation2_games/identify_playstation2_games.py:179 | the extension of a stem followed by `.ext` is `.ext` |
| Identification.LowerAscii | identify_playstation2_games/identify_playstation2_games.py:179 | `lower` maps exactly the letters A–Z to a–z |
| Identification.ImageNamesAccepted | identify_playstation2_games/identify_playstation2_games.py:179-180 | an `.iso` or `.bin` name in any case passes the extension check |
| Identification.NotAnImageOnlyByName | identify_playstation2_games/identify_playstation2_games.py:179-180 | the not-an-image failure happens exactly when the extension check fails, whatever the readers give |
| Identification.Utf8Char | identify_playstation2_games/read_udf.py:108 | one code unit encodes to 1 to 4 bytes |
| Identification.Utf8Ascii | identify_playstation2_games/read_udf.py:108 | an ASCII identifier is its own byte string |
| Identification.Utf8CharHigh | identify_playstation2_games/read_udf.py:108 | every byte of a character beyond ASCII has its top bit set |
| Identification.LStripSlash | identify_playstation2_games/identify_playstation2_games.py:200 | the result is the name without the run of leading `/` |
| Identification.DvdEntries | identify_playstation2_games/identify_playstation2_games.py:189-190 | one candidate per root entry, in order: its identifier as bytes |
| Identification.CdEntries | identify_playstation2_games/identify_playstation2_games.py:199-200 | one candidate per CD path, in order, without its leading `/` |
| Identification.CollectDvdEntries | identify_playstation2_games/identify_playstation2_games.py:189-190 | the loop computes `DvdEntries` |
| Identification.CollectCdEntries | identify_playstation2_games/identify_playstation2_games.py:199-200 | the loop computes `CdEntries` |
| Identification.FirstGameIsFirst | identify_playstation2_games/identify_playstation2_games.py:214-253 | the game found is that of the first candidate that passes the prefix filter and has a table hit; every earlier candidate fails one of them |
| Identification.FirstGameNotInDatabase | identify_playstation2_games/identify_playstation2_games.py:214-255 | not-in-database is raised exactly when every candidate is present and fails the filter or the lookup |
| Identification.FirstGameNeverNotAnImage | identify_playstation2_games/identify_playstation2_games.py:214-255 | the candidate loop never gives the extension failure, and a game carries the disc type it was given |
| Identification.ChooseGame | identify_playstation2_games/identify_playstation2_games.py:214-255 | the early-return loop computes `FirstGame` |
| Identification.DiscTypeIsFirstReader | identify_playstation2_games/identify_playstation2_games.py:183-208 | a game's disc type is DVD exactly when the UDF reader succeeded, CD exactly when only the CD reader did, and Binary otherwise |
| Identification.NothingFound | identify_playstation2_games/identify_playstation2_games.py:205-208 | with no DVD or CD listing and no raw serial, the single missing candidate ends identification |
| Identification.BinaryOnlyAsFallback | identify_playstation2_games/identify_playstation2_games.py:205-208 | when the DVD or CD reader succeeded, the raw scan's result does not matter |
| Identification.IdentifyFrom | identify_playstation2_games/identify_playstation2_games.py:177-255 | the try blocks and the candidate loop compute `GameInfoFrom` |
| Identification.IdentifyImage | identify_playstation2_games/identify_playstation2_games.py:196-255 | the CD and raw-scan fallbacks and the loop compute `GameInfoFrom` with the raw scan of the image, running the scan only when it is needed |
| Identification.GetPlayStation2GameInfo | identify_playstation2_games/identify_playstation2_games.py:177-255 | computes `PlayStation2GameInfo`: the extension check, then `read_udf_file`, then the fallbacks |

## Left out

- File access is not modelled: `os.path.isfile`, `os.path.getsize`, `open`, `seek`, `read` and `tell`. The image is a byte sequence, and the no-such-file error of `read_udf_file` is not modelled.
- Loading the six JSON tables and re-encoding their keys at import time is not modelled. The tables are a `Serials.Tables` parameter of type `map<seq<byte>, string>`.
- The `iso9660` module is not part of this model. The CD reader's result is a parameter: the paths of its tree, or `None` when it raises.
- `IS_PY2` is not modelled; the Python 3 branch of `to_dchars` is modelled.
- Identification.Utf8: encodes any code unit, surrogates included, as the encoding step of `to_dchars` (read_udf.py:106-109) would if it could. It is only applied to identifiers `DChars.DChars` returned. `DChars.DChars` fails with `UnencodableUnit` on a surrogate, as `bytes(chr(n), 'utf-8')` raises, so such a unit never reaches it. That failure is a failure of `Mount.ReadUdfFile` for every d-string it decodes: the identifiers of the primary, logical volume and file set descriptors, and every file identifier of the root directory, deleted and parent entries included, because the identifier is decoded before the filter. The DVD reader then fails and identification falls back to the CD reader or the raw scan.
- Identification.CdEntries: follows Python 2 semantics, where `str` is `bytes`: each path is a byte string with its leading `/` stripped. The `iso9660` module is not part of this model, so the type of the paths it lists is unknown. Under Python 3 a non-empty CD listing yields no CD game. `lstrip('/')` on a byte path raises `TypeError`, the bare `except` swallows it, and the raw scan decides. A `str` path gets past the strip but raises `TypeError` uncaught at the `replace(b'.', b'')` of the candidate loop.
- The byte type is a newtype over `int` in 0..255, not `bv8`; bit operations are related to arithmetic by lemmas (`Records.ICBFlagBits`, `Records.ShortAllocationBits`, `Directories.MaskBits`).
- `Type2PartitionMap` is not modelled: it is never constructed, and its `EntityID` call passes integers where a buffer is expected.
- The embedded and long allocation types only raise `NotImplementedError`; they are one error, `UnsupportedAllocation`. `FileContentBuffer.read`'s embedded branch is unreachable because `load_extents` raises first, so it is left out.
- `File.get_file_content`'s caching is left out: the content is computed once.
- `read_udf_file` re-checks the file size and the anchor tag after `get_sector_size`. Both checks can never fail (`Mount.AnchorChecksPass`), so the model does not repeat them.
- Mount.Open: keeps the missing-partition check, although `Mount.ScannedKeepsPartitionBeforeVolume` shows it never fails. There is no lemma that `read_udf_file` never raises that error as a whole.
- The `if not disc_type` check after the Binary fallback can never fail, so it is not modelled.
- Identification.FirstGame: a missing raw-scan candidate (`None`) raises `AttributeError` in the source; here it is the `NoSerialInBinary` failure.
- Identification.GameInfoFrom: a title is a string; the source's `not title` also skips JSON values such as `0` or `null`, which the string tables cannot hold. An empty title is skipped as in the source.
- Identification.LowerAscii: `str.lower` is modelled on ASCII letters only.
- Identification.Extension: `os.path.splitext` is modelled with `/` as the only separator (POSIX).
- Serials.Upper: `bytes.upper` changes ASCII letters only, as in the source.
- Serials.SearchFrom: models the regular expression by the token it matches, not by a regex engine.
- The shell scripts' disc polling, ripping, encoding, eject and marker files are not part of this model.
- The `Sierra` entry of `PREFIXES` can never pass the filter, because the serial is upper-cased first (`Serials.MixedCasePrefixNeverPasses`). The model keeps this behaviour.
- `|` is in the number class of the pattern, so a raw-scan token may hold `|`. Such a serial keeps its `|` (`Serials.BarSerialHasNoDash`), and the model keeps it as the source does.
