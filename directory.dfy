/**
 * `Directory.__init__`: a directory's content is read through its
 * extents, then walked one file identifier descriptor at a time. Entries
 * marked deleted or parent are dropped; the others are kept in the order
 * they are recorded.
 */
module Directories {
  import opened Wrappers
  import opened Bytes
  import opened Records
  import opened Extents

  /** The test the walk applies, `file_characteristics & (DELETED |
      PARENT)` with DELETED = 0x04 and PARENT = 0x08: the two bits above
      the lowest two, written on integers. Lemma KeptIsMask relates it to
      the bitwise AND. */
  predicate Kept(d: FileIdentifierDescriptor)
  {
    (d.fileCharacteristics as int / DeletedCharacteristic) % 4 == 0
  }

  /** Bit 2 of the characteristics (ECMA-167 part 4, 14.4.3). */
  predicate IsDeleted(d: FileIdentifierDescriptor)
  {
    (d.fileCharacteristics as int / DeletedCharacteristic) % 2 == 1
  }

  /** Bit 3 of the characteristics. */
  predicate IsParent(d: FileIdentifierDescriptor)
  {
    (d.fileCharacteristics as int / ParentCharacteristic) % 2 == 1
  }

  /** The two flag bits of a byte are clear exactly when its value divided
      by four is a multiple of four. */
  lemma MaskBits(x: bv8)
    ensures (x & 0x0C == 0) <==> (x as int / 4) % 4 == 0
  {
  }

  /** Kept is the bitwise test of the two flags. */
  lemma KeptIsMask(d: FileIdentifierDescriptor)
    ensures Kept(d) <==> (d.fileCharacteristics as bv8) & (DeletedCharacteristic as bv8 | ParentCharacteristic as bv8) == 0
  {
    var x := d.fileCharacteristics as bv8;
    assert DeletedCharacteristic as bv8 | ParentCharacteristic as bv8 == 0x0C;
    MaskBits(x);
    assert x as int == d.fileCharacteristics as int;
  }

  /** The mask test keeps exactly the entries that are neither deleted nor
      parent. */
  lemma KeptIsNeitherDeletedNorParent(d: FileIdentifierDescriptor)
    ensures Kept(d) <==> !IsDeleted(d) && !IsParent(d)
  {
    var q := d.fileCharacteristics as int / 4;
    assert d.fileCharacteristics as int / 8 == q / 2;
  }

  /** A reader of one file identifier descriptor at a position of the
      directory content. The walk is stated for any reader that moves on
      by a positive multiple of four bytes, which the descriptor parser
      does (lemma FileIdentifierReaderAdvances). */
  type Reader = (seq<byte>, nat) -> Result<FileIdentifierDescriptor, Error>

  ghost predicate Advances(read: Reader)
  {
    forall content, pos :: read(content, pos).Ok? ==>
      read(content, pos).value.roundedSize >= 40 && read(content, pos).value.roundedSize % 4 == 0
  }

  lemma FileIdentifierReaderAdvances()
    ensures Advances(ParseFileIdentifierDescriptor)
  {
  }

  /** Every descriptor recorded from `pos` on, each starting where the one
      before it ends after rounding. */
  function RecordsFrom(read: Reader, content: seq<byte>, pos: nat): Result<seq<FileIdentifierDescriptor>, Error>
    requires Advances(read)
    decreases |content| - pos
  {
    if pos >= |content| then Ok([])
    else
      var d :- read(content, pos);
      var rest :- RecordsFrom(read, content, pos + d.roundedSize);
      Ok([d] + rest)
  }

  /** The records the walk keeps, in their order. */
  function Filter(records: seq<FileIdentifierDescriptor>): seq<FileIdentifierDescriptor>
  {
    if records == [] then []
    else (if Kept(records[0]) then [records[0]] else []) + Filter(records[1..])
  }

  /** The loop of `Directory.__init__` from `pos` on, with the entries
      kept so far. */
  function WalkFrom(read: Reader, content: seq<byte>, pos: nat, entries: seq<FileIdentifierDescriptor>): Result<seq<FileIdentifierDescriptor>, Error>
    requires Advances(read)
    decreases |content| - pos
  {
    if pos >= |content| then Ok(entries)
    else
      var d :- read(content, pos);
      WalkFrom(read, content, pos + d.roundedSize, if Kept(d) then entries + [d] else entries)
  }

  /** The entries of a directory whose content has been read. */
  function DirectoryEntries(content: seq<byte>): Result<seq<FileIdentifierDescriptor>, Error>
  {
    FileIdentifierReaderAdvances();
    WalkFrom(ParseFileIdentifierDescriptor, content, 0, [])
  }

  /** All the records of a directory's content. */
  function DirectoryRecords(content: seq<byte>): Result<seq<FileIdentifierDescriptor>, Error>
  {
    FileIdentifierReaderAdvances();
    RecordsFrom(ParseFileIdentifierDescriptor, content, 0)
  }

  lemma FilterCons(d: FileIdentifierDescriptor, rest: seq<FileIdentifierDescriptor>)
    ensures Filter([d] + rest) == (if Kept(d) then [d] else []) + Filter(rest)
  {
    assert ([d] + rest)[0] == d;
    assert ([d] + rest)[1..] == rest;
  }

  lemma {:induction false} FilterAppend(a: seq<FileIdentifierDescriptor>, b: seq<FileIdentifierDescriptor>)
    ensures Filter(a + b) == Filter(a) + Filter(b)
  {
    if a != [] {
      FilterAppend(a[1..], b);
      assert (a + b)[0] == a[0];
      assert (a + b)[1..] == a[1..] + b;
    } else {
      assert a + b == b;
    }
  }

  /** A record is among the filtered ones exactly when it is recorded and
      kept; filtering never adds or reorders records. */
  lemma {:induction false} FilterKeepsExactly(records: seq<FileIdentifierDescriptor>)
    ensures forall d :: d in Filter(records) <==> d in records && Kept(d)
    ensures |Filter(records)| <= |records|
  {
    if records != [] {
      FilterKeepsExactly(records[1..]);
      assert records == [records[0]] + records[1..];
    }
  }

  /** The walk, with its accumulator, is the filtered list of all the
      records; it fails exactly when reading the records fails, and with
      the same error. */
  lemma {:induction false} WalkIsFilteredRecords(read: Reader, content: seq<byte>, pos: nat, entries: seq<FileIdentifierDescriptor>)
    requires Advances(read)
    ensures RecordsFrom(read, content, pos).Err? ==>
      WalkFrom(read, content, pos, entries) == Err(RecordsFrom(read, content, pos).error)
    ensures RecordsFrom(read, content, pos).Ok? ==>
      WalkFrom(read, content, pos, entries) == Ok(entries + Filter(RecordsFrom(read, content, pos).value))
    decreases |content| - pos
  {
    if pos < |content| {
      var d := read(content, pos);
      if d.Ok? {
        var next := pos + d.value.roundedSize;
        var kept := if Kept(d.value) then [d.value] else [];
        var entries' := if Kept(d.value) then entries + [d.value] else entries;
        assert entries' == entries + kept;
        WalkIsFilteredRecords(read, content, next, entries');
        var rest := RecordsFrom(read, content, next);
        if rest.Ok? {
          FilterCons(d.value, rest.value);
          assert entries' + Filter(rest.value) == entries + (kept + Filter(rest.value));
        }
      }
    } else {
      assert entries + [] == entries;
    }
  }

  /** What the directory walk promises: the entries are the kept records,
      in on-disc order, and so none of them is deleted or a parent. */
  lemma DirectoryEntriesShape(content: seq<byte>)
    ensures DirectoryEntries(content).Ok? <==> DirectoryRecords(content).Ok?
    ensures DirectoryEntries(content).Err? ==> DirectoryEntries(content).error == DirectoryRecords(content).error
    ensures DirectoryEntries(content).Ok? ==>
      && DirectoryEntries(content).value == Filter(DirectoryRecords(content).value)
      && forall d :: d in DirectoryEntries(content).value ==>
           d in DirectoryRecords(content).value && !IsDeleted(d) && !IsParent(d)
  {
    FileIdentifierReaderAdvances();
    WalkIsFilteredRecords(ParseFileIdentifierDescriptor, content, 0, []);
    if DirectoryRecords(content).Ok? {
      assert [] + Filter(DirectoryRecords(content).value) == Filter(DirectoryRecords(content).value);
      FilterDropsDeletedAndParents(DirectoryRecords(content).value);
    }
  }

  /** Filtering keeps only recorded entries that are neither deleted nor
      parent. */
  lemma FilterDropsDeletedAndParents(records: seq<FileIdentifierDescriptor>)
    ensures forall d :: d in Filter(records) ==> d in records && !IsDeleted(d) && !IsParent(d)
  {
    FilterKeepsExactly(records);
    forall d | d in Filter(records)
      ensures !IsDeleted(d) && !IsParent(d)
    {
      KeptIsNeitherDeletedNorParent(d);
    }
  }

  /** Each record moves the walk on by at least 40 bytes, so a content of
      n bytes holds at most ceil(n / 40) records. */
  lemma {:induction false} RecordsAdvance(read: Reader, content: seq<byte>, pos: nat)
    requires Advances(read) && RecordsFrom(read, content, pos).Ok?
    ensures var n := |RecordsFrom(read, content, pos).value|;
      n == 0 || 40 * (n - 1) < |content| - pos
    decreases |content| - pos
  {
    if pos < |content| {
      var d := read(content, pos).value;
      RecordsAdvance(read, content, pos + d.roundedSize);
    }
  }

  /** `Directory.__init__`'s loop, for any reader of records. */
  method Walk(read: Reader, content: seq<byte>) returns (r: Result<seq<FileIdentifierDescriptor>, Error>)
    requires Advances(read)
    ensures r == WalkFrom(read, content, 0, [])
  {
    var entries: seq<FileIdentifierDescriptor> := [];
    var pos: nat := 0;
    while pos < |content|
      invariant WalkFrom(read, content, 0, []) == WalkFrom(read, content, pos, entries)
      decreases |content| - pos
    {
      var id := read(content, pos);
      if id.Err? {
        return Err(id.error);
      }
      if Kept(id.value) {
        entries := entries + [id.value];
      }
      pos := pos + id.value.roundedSize;
    }
    return Ok(entries);
  }

  /** The walk with the file identifier descriptor parser as its reader. */
  method ReadDirectoryEntries(content: seq<byte>) returns (r: Result<seq<FileIdentifierDescriptor>, Error>)
    ensures r == DirectoryEntries(content)
  {
    FileIdentifierReaderAdvances();
    r := Walk(ParseFileIdentifierDescriptor, content);
  }

  /** The content of a directory's file entry: its extents are loaded
      first (the content buffer is made on first use), then its size is
      checked against the largest C int, then all of it is read. */
  function DirectoryContent(image: seq<byte>, partitionStart: nat, blockSize: nat, entry: FileEntry): Result<seq<byte>, Error>
  {
    var extents :- FileExtents(entry.allocationDescriptors, entry.icbTag.allocationType, blockSize);
    if entry.informationLength > MaxInt then Err(DirectoryTooBig)
    else
      ExtentsShape(entry.allocationDescriptors, entry.icbTag.allocationType, blockSize);
      ReadExtents(image, extents, partitionStart, entry.informationLength, 0, entry.informationLength)
  }

  /** `Directory(context, partition, file_entry)`: the entries of the
      directory whose file entry is given. */
  function Directory(image: seq<byte>, partitionStart: nat, blockSize: nat, entry: FileEntry): Result<seq<FileIdentifierDescriptor>, Error>
  {
    var content :- DirectoryContent(image, partitionStart, blockSize, entry);
    DirectoryEntries(content)
  }

  /** A directory is only read when its descriptors are short ones and
      its size fits a C int. */
  lemma DirectoryNeedsShortDescriptorsAndSize(image: seq<byte>, partitionStart: nat, blockSize: nat, entry: FileEntry)
    ensures entry.icbTag.allocationType != ShortDescriptors ==>
      Directory(image, partitionStart, blockSize, entry) == Err(UnsupportedAllocation)
    ensures FileExtents(entry.allocationDescriptors, entry.icbTag.allocationType, blockSize).Ok? && entry.informationLength > MaxInt ==>
      Directory(image, partitionStart, blockSize, entry) == Err(DirectoryTooBig)
  {
  }

  method ReadDirectory(image: seq<byte>, partitionStart: nat, blockSize: nat, entry: FileEntry) returns (r: Result<seq<FileIdentifierDescriptor>, Error>)
    ensures r == Directory(image, partitionStart, blockSize, entry)
  {
    var extents := LoadExtents(entry.allocationDescriptors, entry.icbTag.allocationType, blockSize);
    if extents.Err? {
      return Err(extents.error);
    }
    if entry.informationLength > MaxInt {
      return Err(DirectoryTooBig);
    }
    ExtentsShape(entry.allocationDescriptors, entry.icbTag.allocationType, blockSize);
    var content := ReadFromExtents(image, extents.value, partitionStart, entry.informationLength, 0, entry.informationLength);
    if content.Err? {
      return Err(content.error);
    }
    r := ReadDirectoryEntries(content.value);
  }
}
