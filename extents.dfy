/**
 * `FileContentBuffer`: a file's content located through the allocation
 * descriptors of its file entry. `load_extents` turns the short allocation
 * descriptors into cooked extents, `find_extent` picks the extent holding a
 * file position and `read_from_extents` reads the image through them.
 */
module Extents {
  import opened Wrappers
  import opened Bytes
  import opened Records

  /** An extent of file content: the file position it starts at, the
      partition marker (always `MAX_INT`, meaning the file's own
      partition), its byte position in the partition and its length. */
  datatype CookedExtent = CookedExtent(
    fileContentOffset: nat,
    partition: nat,
    startPos: nat,
    length: nat)

  const ShortAllocationDescriptorSize: nat := 8

  /** The byte position of a block: `location * block_size`. */
  function BlockPosition(location: nat, blockSize: nat): nat
  {
    location * blockSize
  }

  /** The `load_extents` loop from descriptor offset `i` on, with the file
      position `filePos` and the extents `acc` cooked so far. */
  function ExtentsFrom(ads: seq<byte>, blockSize: nat, i: nat, filePos: nat, acc: seq<CookedExtent>): Result<seq<CookedExtent>, Error>
    decreases |ads| - i
  {
    if i >= |ads| then Ok(acc)
    else
      var sad :- ParseShortAllocationDescriptor(ads, i);
      if sad.extentLength == 0 then Ok(acc)
      else if sad.flags != 0 then Err(UnrecordedExtent)
      else
        var extent := CookedExtent(filePos, MaxInt, BlockPosition(sad.extentLocation, blockSize), sad.extentLength);
        ExtentsFrom(ads, blockSize, i + ShortAllocationDescriptorSize, filePos + sad.extentLength, acc + [extent])
  }

  /** The extents of a file entry's allocation descriptors; only short
      descriptors are supported. */
  function FileExtents(ads: seq<byte>, allocationType: nat, blockSize: nat): Result<seq<CookedExtent>, Error>
  {
    if allocationType != ShortDescriptors then Err(UnsupportedAllocation)
    else ExtentsFrom(ads, blockSize, 0, 0, [])
  }

  /** The sum of the lengths of the first `k` extents. */
  function LengthBefore(extents: seq<CookedExtent>, k: nat): nat
    requires k <= |extents|
  {
    if k == 0 then 0 else LengthBefore(extents, k - 1) + extents[k - 1].length
  }

  /** Extents laid end to end from file position 0, none of them empty. */
  predicate Contiguous(extents: seq<CookedExtent>)
  {
    && (forall k :: 0 <= k < |extents| ==> extents[k].length > 0)
    && (forall k :: 0 <= k < |extents| ==> StartsAfterPrevious(extents, k))
  }

  /** Extent k starts at the sum of the lengths of the extents before it. */
  predicate StartsAfterPrevious(extents: seq<CookedExtent>, k: nat)
    requires k < |extents|
  {
    extents[k].fileContentOffset == LengthBefore(extents, k)
  }

  /** Extent k is descriptor k of the list: recorded, of its length, and at
      its block times the block size. */
  predicate CookedFrom(ads: seq<byte>, blockSize: nat, extents: seq<CookedExtent>)
  {
    forall k :: 0 <= k < |extents| ==> CookedAt(ads, blockSize, extents[k], 8 * k)
  }

  /** `extent` is what the short allocation descriptor at `at` cooks into. */
  predicate CookedAt(ads: seq<byte>, blockSize: nat, extent: CookedExtent, at: nat)
  {
    && at + 8 <= |ads|
    && var sad := ParseShortAllocationDescriptor(ads, at).value;
    && sad.flags == 0
    && extent.length == sad.extentLength
    && extent.startPos == BlockPosition(sad.extentLocation, blockSize)
    && extent.partition == MaxInt
  }

  /** The descriptor list ends at `at`: at its end or at a zero length. */
  predicate StopsAt(ads: seq<byte>, at: nat)
  {
    at >= |ads| || (at + 8 <= |ads| && ParseShortAllocationDescriptor(ads, at).value.extentLength == 0)
  }

  lemma LengthBeforeAppend(acc: seq<CookedExtent>, extent: CookedExtent, k: nat)
    requires k <= |acc|
    ensures LengthBefore(acc + [extent], k) == LengthBefore(acc, k)
  {
    if k > 0 {
      LengthBeforeAppend(acc, extent, k - 1);
      assert (acc + [extent])[k - 1] == acc[k - 1];
    }
  }

  lemma ContiguousAppend(acc: seq<CookedExtent>, extent: CookedExtent)
    requires Contiguous(acc)
    requires extent.fileContentOffset == LengthBefore(acc, |acc|) && extent.length > 0
    ensures Contiguous(acc + [extent])
    ensures LengthBefore(acc + [extent], |acc| + 1) == LengthBefore(acc, |acc|) + extent.length
  {
    var acc' := acc + [extent];
    forall k | 0 <= k < |acc'|
      ensures StartsAfterPrevious(acc', k) && acc'[k].length > 0
    {
      LengthBeforeAppend(acc, extent, k);
      if k < |acc| {
        assert acc'[k] == acc[k];
        assert StartsAfterPrevious(acc, k);
      }
    }
    LengthBeforeAppend(acc, extent, |acc|);
  }

  lemma CookedAppend(ads: seq<byte>, blockSize: nat, acc: seq<CookedExtent>, extent: CookedExtent)
    requires CookedFrom(ads, blockSize, acc) && CookedAt(ads, blockSize, extent, 8 * |acc|)
    ensures CookedFrom(ads, blockSize, acc + [extent])
  {
    var acc' := acc + [extent];
    forall k | 0 <= k < |acc'|
      ensures CookedAt(ads, blockSize, acc'[k], 8 * k)
    {
      if k < |acc| {
        assert acc'[k] == acc[k];
      }
    }
  }

  /** One step of `ExtentsFrom` over a descriptor of non-zero length. */
  lemma ExtentsFromStep(ads: seq<byte>, blockSize: nat, i: nat, filePos: nat, acc: seq<CookedExtent>)
    requires i < |ads| && ExtentsFrom(ads, blockSize, i, filePos, acc).Ok?
    requires ParseShortAllocationDescriptor(ads, i).Ok?
    requires ParseShortAllocationDescriptor(ads, i).value.extentLength != 0
    ensures var sad := ParseShortAllocationDescriptor(ads, i).value;
      var extent := CookedExtent(filePos, MaxInt, BlockPosition(sad.extentLocation, blockSize), sad.extentLength);
      && sad.flags == 0
      && ExtentsFrom(ads, blockSize, i, filePos, acc) ==
           ExtentsFrom(ads, blockSize, i + 8, filePos + sad.extentLength, acc + [extent])
  {
  }

  lemma {:induction false} ExtentsFromContiguous(ads: seq<byte>, blockSize: nat, i: nat, filePos: nat, acc: seq<CookedExtent>)
    requires Contiguous(acc) && filePos == LengthBefore(acc, |acc|)
    requires ExtentsFrom(ads, blockSize, i, filePos, acc).Ok?
    ensures Contiguous(ExtentsFrom(ads, blockSize, i, filePos, acc).value)
    decreases |ads| - i
  {
    if i < |ads| {
      var sad := ParseShortAllocationDescriptor(ads, i).value;
      if sad.extentLength != 0 {
        var extent := CookedExtent(filePos, MaxInt, BlockPosition(sad.extentLocation, blockSize), sad.extentLength);
        ExtentsFromStep(ads, blockSize, i, filePos, acc);
        ContiguousAppend(acc, extent);
        ExtentsFromContiguous(ads, blockSize, i + 8, filePos + sad.extentLength, acc + [extent]);
      }
    }
  }

  lemma {:induction false} ExtentsFromCooked(ads: seq<byte>, blockSize: nat, i: nat, filePos: nat, acc: seq<CookedExtent>)
    requires i == 8 * |acc| && CookedFrom(ads, blockSize, acc)
    requires ExtentsFrom(ads, blockSize, i, filePos, acc).Ok?
    ensures var e := ExtentsFrom(ads, blockSize, i, filePos, acc).value;
      CookedFrom(ads, blockSize, e) && StopsAt(ads, 8 * |e|)
    decreases |ads| - i
  {
    if i < |ads| {
      var sad := ParseShortAllocationDescriptor(ads, i).value;
      if sad.extentLength != 0 {
        var extent := CookedExtent(filePos, MaxInt, BlockPosition(sad.extentLocation, blockSize), sad.extentLength);
        ExtentsFromStep(ads, blockSize, i, filePos, acc);
        CookedAppend(ads, blockSize, acc, extent);
        ExtentsFromCooked(ads, blockSize, i + 8, filePos + sad.extentLength, acc + [extent]);
      }
    }
  }

  /** What `load_extents` promises: the extents are laid end to end from
      position 0 (each `file_content_offset` is the sum of the lengths
      before it), extent k comes from descriptor k with
      `start_pos = location * block_size`, and the list ends at the end of
      the descriptors or at the first zero-length one. */
  lemma ExtentsShape(ads: seq<byte>, allocationType: nat, blockSize: nat)
    requires FileExtents(ads, allocationType, blockSize).Ok?
    ensures allocationType == ShortDescriptors
    ensures var e := FileExtents(ads, allocationType, blockSize).value;
      Contiguous(e) && CookedFrom(ads, blockSize, e) && StopsAt(ads, 8 * |e|)
  {
    ExtentsFromContiguous(ads, blockSize, 0, 0, []);
    ExtentsFromCooked(ads, blockSize, 0, 0, []);
  }

  /** `load_extents` as the Python code runs it: walk the descriptors eight
      bytes at a time, stop at a zero length, refuse unrecorded extents. */
  method LoadExtents(ads: seq<byte>, allocationType: nat, blockSize: nat) returns (r: Result<seq<CookedExtent>, Error>)
    ensures r == FileExtents(ads, allocationType, blockSize)
  {
    var extents: seq<CookedExtent> := [];
    if allocationType == ShortDescriptors {
      var filePos: nat := 0;
      var i: nat := 0;
      while i < |ads|
        invariant FileExtents(ads, allocationType, blockSize) == ExtentsFrom(ads, blockSize, i, filePos, extents)
        decreases |ads| - i
      {
        var sad := ParseShortAllocationDescriptor(ads, i);
        if sad.Err? {
          return Err(sad.error);
        }
        if sad.value.extentLength == 0 {
          break;
        }
        if sad.value.flags != 0 {
          return Err(UnrecordedExtent);
        }
        var newExtent := CookedExtent(filePos, MaxInt, BlockPosition(sad.value.extentLocation, blockSize), sad.value.extentLength);
        extents := extents + [newExtent];
        filePos := filePos + sad.value.extentLength;
        i := i + ShortAllocationDescriptorSize;
      }
    } else {
      return Err(UnsupportedAllocation);
    }
    return Ok(extents);
  }

  /** The first of the extents from index `k` on whose end lies beyond `pos`. */
  function FirstExtentFrom(extents: seq<CookedExtent>, pos: nat, k: nat): (r: Option<nat>)
    requires k <= |extents|
    ensures r.Some? ==> k <= r.value < |extents|
    decreases |extents| - k
  {
    if k == |extents| then None
    else if extents[k].fileContentOffset + extents[k].length > pos then Some(k)
    else FirstExtentFrom(extents, pos, k + 1)
  }

  /** `find_extent(pos)`: the first extent whose end lies beyond `pos`. */
  function FirstExtentCovering(extents: seq<CookedExtent>, pos: nat): Option<CookedExtent>
  {
    match FirstExtentFrom(extents, pos, 0)
    case None => None
    case Some(k) => Some(extents[k])
  }

  /** The extent ends after file position `pos`. */
  predicate EndsBeyond(extent: CookedExtent, pos: nat)
  {
    extent.fileContentOffset + extent.length > pos
  }

  /** The index found is the least one from `k` on whose extent ends beyond
      `pos`, and none is found when no such extent exists. */
  lemma {:induction false} FirstExtentFromIsFirst(extents: seq<CookedExtent>, pos: nat, k: nat)
    requires k <= |extents|
    ensures FirstExtentFrom(extents, pos, k).Some? ==>
      var i := FirstExtentFrom(extents, pos, k).value;
      && EndsBeyond(extents[i], pos)
      && forall j :: k <= j < i ==> !EndsBeyond(extents[j], pos)
    ensures FirstExtentFrom(extents, pos, k).None? ==>
      forall j :: k <= j < |extents| ==> !EndsBeyond(extents[j], pos)
    decreases |extents| - k
  {
    if k < |extents| && !EndsBeyond(extents[k], pos) {
      FirstExtentFromIsFirst(extents, pos, k + 1);
    }
  }

  /** `find_extent` returns an extent exactly when one ends beyond `pos`,
      and then the first such extent of the list. */
  lemma FirstExtentCoveringIsFirst(extents: seq<CookedExtent>, pos: nat)
    ensures FirstExtentCovering(extents, pos).Some? <==> exists j :: 0 <= j < |extents| && EndsBeyond(extents[j], pos)
    ensures FirstExtentCovering(extents, pos).Some? ==> exists i ::
      && 0 <= i < |extents| && FirstExtentCovering(extents, pos).value == extents[i]
      && EndsBeyond(extents[i], pos)
      && forall j :: 0 <= j < i ==> !EndsBeyond(extents[j], pos)
  {
    FirstExtentFromIsFirst(extents, pos, 0);
  }

  method FindExtent(extents: seq<CookedExtent>, pos: nat) returns (r: Option<CookedExtent>)
    ensures r == FirstExtentCovering(extents, pos)
  {
    for k := 0 to |extents|
      invariant FirstExtentFrom(extents, pos, 0) == FirstExtentFrom(extents, pos, k)
    {
      if extents[k].fileContentOffset + extents[k].length > pos {
        return Some(extents[k]);
      }
    }
    return None;
  }

  lemma LengthBeforeMonotone(extents: seq<CookedExtent>, j: nat, k: nat)
    requires j <= k <= |extents|
    ensures LengthBefore(extents, j) <= LengthBefore(extents, k)
    decreases k - j
  {
    if j < k {
      LengthBeforeMonotone(extents, j, k - 1);
    }
  }

  /** On contiguous extents the extent found holds `pos`, and none is found
      exactly when `pos` lies at or beyond the total length. */
  lemma FoundExtentHolds(extents: seq<CookedExtent>, pos: nat)
    requires Contiguous(extents)
    ensures FirstExtentCovering(extents, pos).Some? ==>
      var e := FirstExtentCovering(extents, pos).value;
      e.fileContentOffset <= pos < e.fileContentOffset + e.length
    ensures FirstExtentCovering(extents, pos).None? <==> pos >= LengthBefore(extents, |extents|)
  {
    FirstExtentFromIsFirst(extents, pos, 0);
    var r := FirstExtentFrom(extents, pos, 0);
    if r.Some? {
      var k := r.value;
      assert StartsAfterPrevious(extents, k);
      if k > 0 {
        assert !EndsBeyond(extents[k - 1], pos);
        assert StartsAfterPrevious(extents, k - 1);
      }
      LengthBeforeMonotone(extents, k + 1, |extents|);
    } else if |extents| > 0 {
      assert !EndsBeyond(extents[|extents| - 1], pos);
      assert StartsAfterPrevious(extents, |extents| - 1);
    }
  }

  /** The bytes one round of `read_from_extents` reads from `extent`: the
      rest of the extent from file position `at`, or `remaining` bytes if
      that is less, at `start_pos + extent_offset + partition_start` in the
      image. */
  function Chunk(image: seq<byte>, extent: CookedExtent, partitionStart: nat, at: nat, remaining: nat): (r: seq<byte>)
    requires extent.fileContentOffset <= at
    ensures |r| <= remaining
  {
    var extentOffset := at - extent.fileContentOffset;
    var toRead := Min(remaining, extent.length - extentOffset);
    var newPos := extent.startPos + extentOffset + partitionStart;
    Slice(image, newPos, newPos + toRead)
  }

  /** One round: find the extent holding file position `at`, then read
      from it. */
  function Round(image: seq<byte>, extents: seq<CookedExtent>, partitionStart: nat, at: nat, remaining: nat): (r: Result<seq<byte>, Error>)
    requires Contiguous(extents)
    ensures r.Ok? ==> |r.value| <= remaining
  {
    FoundExtentHolds(extents, at);
    match FirstExtentCovering(extents, at)
    case None => Err(NoExtent)
    case Some(extent) => Ok(Chunk(image, extent, partitionStart, at, remaining))
  }

  /** The `read_from_extents` loop with `read` bytes read so far and `last`
      the most recent chunk. An empty read ends the loop; only the last
      chunk is returned. */
  function ReadLoop(image: seq<byte>, extents: seq<CookedExtent>, partitionStart: nat,
                    pos: nat, total: int, read: nat, last: seq<byte>): Result<seq<byte>, Error>
    requires Contiguous(extents)
    decreases total - read
  {
    if read >= total then Ok(last)
    else
      var buffer :- Round(image, extents, partitionStart, pos + read, total - read);
      if |buffer| == 0 then Ok(buffer)
      else ReadLoop(image, extents, partitionStart, pos, total, read + |buffer|, buffer)
  }

  /** Round reads from the extent `find_extent` returns. */
  lemma RoundFound(image: seq<byte>, extents: seq<CookedExtent>, partitionStart: nat, at: nat, remaining: nat, extent: CookedExtent)
    requires Contiguous(extents) && FirstExtentCovering(extents, at) == Some(extent)
    ensures extent.fileContentOffset <= at
    ensures Round(image, extents, partitionStart, at, remaining) == Ok(Chunk(image, extent, partitionStart, at, remaining))
  {
    FoundExtentHolds(extents, at);
  }

  /** A round at a position no extent holds ends the read with an error. */
  lemma ReadLoopNoExtent(image: seq<byte>, extents: seq<CookedExtent>, partitionStart: nat,
                         pos: nat, total: int, read: nat, last: seq<byte>)
    requires Contiguous(extents) && read < total
    requires FirstExtentCovering(extents, pos + read) == None
    ensures ReadLoop(image, extents, partitionStart, pos, total, read, last) == Err(NoExtent)
  {
  }

  /** A round that found `extent` reads its chunk; an empty chunk ends the
      read, any other is followed by the next round. */
  lemma ReadLoopFound(image: seq<byte>, extents: seq<CookedExtent>, partitionStart: nat,
                      pos: nat, total: int, read: nat, last: seq<byte>, extent: CookedExtent)
    requires Contiguous(extents) && read < total
    requires FirstExtentCovering(extents, pos + read) == Some(extent)
    ensures extent.fileContentOffset <= pos + read
    ensures var buffer := Chunk(image, extent, partitionStart, pos + read, total - read);
      && (|buffer| == 0 ==> ReadLoop(image, extents, partitionStart, pos, total, read, last) == Ok(buffer))
      && (|buffer| > 0 ==>
            ReadLoop(image, extents, partitionStart, pos, total, read, last) ==
            ReadLoop(image, extents, partitionStart, pos, total, read + |buffer|, buffer))
  {
    RoundFound(image, extents, partitionStart, pos + read, total - read, extent);
  }

  /** `read_from_extents(pos, offset, count)` on a file content of
      `capacity` bytes. */
  function ReadExtents(image: seq<byte>, extents: seq<CookedExtent>, partitionStart: nat,
                       capacity: nat, pos: nat, count: nat): Result<seq<byte>, Error>
    requires Contiguous(extents)
  {
    ReadLoop(image, extents, partitionStart, pos, Min(capacity - pos, count), 0, [])
  }

  method ReadFromExtents(image: seq<byte>, extents: seq<CookedExtent>, partitionStart: nat,
                         capacity: nat, pos: nat, count: nat) returns (r: Result<seq<byte>, Error>)
    requires Contiguous(extents)
    ensures r == ReadExtents(image, extents, partitionStart, capacity, pos, count)
  {
    var totalToRead := Min(capacity - pos, count);
    var totalRead: nat := 0;
    var buffer: seq<byte> := [];
    ghost var spec := ReadExtents(image, extents, partitionStart, capacity, pos, count);
    while totalRead < totalToRead
      invariant spec == ReadLoop(image, extents, partitionStart, pos, totalToRead, totalRead, buffer)
      decreases totalToRead - totalRead
    {
      var extent := FindExtent(extents, pos + totalRead);
      if extent.None? {
        ReadLoopNoExtent(image, extents, partitionStart, pos, totalToRead, totalRead, buffer);
        return Err(NoExtent);
      }
      ReadLoopFound(image, extents, partitionStart, pos, totalToRead, totalRead, buffer, extent.value);
      // Chunk works out extent_offset, to_read and new_pos, and reads.
      buffer := Chunk(image, extent.value, partitionStart, pos + totalRead, totalToRead - totalRead);
      if |buffer| == 0 {
        return Ok(buffer);
      }
      totalRead := totalRead + |buffer|;
    }
    return Ok(buffer);
  }

  /** A read that one extent covers, from an image holding all of it,
      returns exactly those bytes of the image. */
  lemma ReadWithinOneExtent(image: seq<byte>, extents: seq<CookedExtent>, partitionStart: nat,
                            capacity: nat, pos: nat, count: nat)
    requires Contiguous(extents) && |extents| > 0
    requires var n := Min(capacity - pos, count);
      n > 0 && pos + n <= extents[0].length &&
      extents[0].startPos + partitionStart + pos + n <= |image|
    ensures var n := Min(capacity - pos, count);
      var at := extents[0].startPos + partitionStart + pos;
      ReadExtents(image, extents, partitionStart, capacity, pos, count) == Ok(image[at..at + n])
  {
    var n := Min(capacity - pos, count);
    assert StartsAfterPrevious(extents, 0);
    assert FirstExtentFrom(extents, pos, 0) == Some(0);
    var at := extents[0].startPos + partitionStart + pos;
    var chunk := Chunk(image, extents[0], partitionStart, pos, n);
    assert chunk == Slice(image, at, at + n);
    SliceWithin(image, at, at + n);
    ReadLoopFound(image, extents, partitionStart, pos, n, 0, [], extents[0]);
  }

  /** The quirk of `read_from_extents`: when the read spans two extents,
      only the bytes of the second are returned, not the whole content. */
  lemma ReadAcrossTwoExtentsKeepsLast(image: seq<byte>, a: CookedExtent, b: CookedExtent, partitionStart: nat)
    requires a.fileContentOffset == 0 && a.length > 0
    requires b.fileContentOffset == a.length && b.length > 0
    requires a.startPos + partitionStart + a.length <= |image|
    requires b.startPos + partitionStart + b.length <= |image|
    ensures Contiguous([a, b])
    ensures var total := a.length + b.length;
      var at := b.startPos + partitionStart;
      ReadExtents(image, [a, b], partitionStart, total, 0, total) == Ok(image[at..at + b.length])
  {
    TwoExtentsContiguous(a, b);
    var pa := a.startPos + partitionStart;
    TwoExtentsFirstRound(image, a, b, partitionStart);
    TwoExtentsSecondRound(image, a, b, partitionStart, image[pa..pa + a.length]);
  }

  lemma TwoExtentsContiguous(a: CookedExtent, b: CookedExtent)
    requires a.fileContentOffset == 0 && a.length > 0
    requires b.fileContentOffset == a.length && b.length > 0
    ensures Contiguous([a, b])
  {
    var e := [a, b];
    assert LengthBefore(e, 1) == a.length;
    assert StartsAfterPrevious(e, 0) && StartsAfterPrevious(e, 1);
  }

  /** The first round reads all of the first extent. */
  lemma TwoExtentsFirstRound(image: seq<byte>, a: CookedExtent, b: CookedExtent, partitionStart: nat)
    requires Contiguous([a, b]) && a.fileContentOffset == 0 && a.length > 0 && b.length > 0
    requires a.startPos + partitionStart + a.length <= |image|
    ensures var total := a.length + b.length;
      var pa := a.startPos + partitionStart;
      ReadLoop(image, [a, b], partitionStart, 0, total, 0, []) ==
      ReadLoop(image, [a, b], partitionStart, 0, total, a.length, image[pa..pa + a.length])
  {
    var e := [a, b];
    var total := a.length + b.length;
    var pa := a.startPos + partitionStart;
    assert FirstExtentFrom(e, 0, 0) == Some(0);
    assert Chunk(image, a, partitionStart, 0, total) == Slice(image, pa, pa + a.length);
    SliceWithin(image, pa, pa + a.length);
    ReadLoopFound(image, e, partitionStart, 0, total, 0, [], a);
  }

  /** The second round reads all of the second extent and ends the read
      with its bytes alone. */
  lemma TwoExtentsSecondRound(image: seq<byte>, a: CookedExtent, b: CookedExtent, partitionStart: nat, first: seq<byte>)
    requires Contiguous([a, b]) && b.fileContentOffset == a.length && a.length > 0 && b.length > 0
    requires b.startPos + partitionStart + b.length <= |image|
    ensures var total := a.length + b.length;
      var pb := b.startPos + partitionStart;
      ReadLoop(image, [a, b], partitionStart, 0, total, a.length, first) == Ok(image[pb..pb + b.length])
  {
    var e := [a, b];
    var total := a.length + b.length;
    var pb := b.startPos + partitionStart;
    assert StartsAfterPrevious(e, 0);
    assert FirstExtentFrom(e, a.length, 1) == Some(1);
    assert FirstExtentFrom(e, a.length, 0) == Some(1);
    assert Chunk(image, b, partitionStart, a.length, total - a.length) == Slice(image, pb, pb + b.length);
    SliceWithin(image, pb, pb + b.length);
    ReadLoopFound(image, e, partitionStart, 0, total, a.length, first, b);
  }
}
