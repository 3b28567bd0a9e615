/**
 * The two probes `read_udf_file` makes before it reads any descriptor:
 * `is_valid_udf`, the volume recognition sequence scan (ECMA-167 part 2, 9,
 * and part 3, 9.1), and `get_sector_size`, which looks for the anchor
 * volume descriptor pointer at sector 256 (ECMA-167 part 3, 10.2).
 */
module Recognition {
  import opened Wrappers
  import opened Bytes
  import opened Tags

  /** The 32 KiB before the recognition sequence. */
  const HeaderSize: nat := 1024 * 32
  /** The sector size the recognition scan assumes. */
  const SectorSize: nat := 1024 * 2

  /** What a volume structure descriptor's standard identifier says. */
  datatype Recognition =
    | Beginning      // BEA01
    | Nested         // NSR02 or NSR03
    | Terminating    // TEA01
    | Passed         // BOOT2, CD001 or CDW02
    | Unrecognised   // anything else

  function Classify(identifier: seq<byte>): Recognition
  {
    if identifier == Ascii("BEA01") then Beginning
    else if identifier == Ascii("NSR02") || identifier == Ascii("NSR03") then Nested
    else if identifier == Ascii("TEA01") then Terminating
    else if identifier == Ascii("BOOT2") || identifier == Ascii("CD001") || identifier == Ascii("CDW02") then Passed
    else Unrecognised
  }

  /** Where sector `k` of the recognition sequence starts. */
  function SectorStart(k: nat): nat
  {
    HeaderSize + SectorSize * k
  }

  /** The scan from sector `k` on, with the three flags seen so far. A read
      shorter than a sector ends it, and so does an unrecognised
      identifier; either way the answer is whether all three were seen. */
  function ScanFrom(image: seq<byte>, k: nat, bea: bool, vsd: bool, tea: bool): bool
    decreases |image| - SectorStart(k)
  {
    var buffer := Slice(image, SectorStart(k), SectorStart(k) + SectorSize);
    if |buffer| < SectorSize then bea && vsd && tea
    else
      match Classify(buffer[1..6])
      case Beginning => ScanFrom(image, k + 1, true, vsd, tea)
      case Nested => ScanFrom(image, k + 1, bea, true, tea)
      case Terminating => ScanFrom(image, k + 1, bea, vsd, true)
      case Passed => ScanFrom(image, k + 1, bea, vsd, tea)
      case Unrecognised => bea && vsd && tea
  }

  /** `is_valid_udf`. */
  function IsValidUdf(image: seq<byte>): bool
  {
    if |image| < HeaderSize + SectorSize then false
    else ScanFrom(image, 0, false, false, false)
  }

  /** Sector `k` of the sequence is wholly inside the image. */
  predicate Full(image: seq<byte>, k: nat)
  {
    SectorStart(k) + SectorSize <= |image|
  }

  function Identifier(image: seq<byte>, k: nat): seq<byte>
    requires Full(image, k)
  {
    image[SectorStart(k) + 1..SectorStart(k) + 6]
  }

  /** The scan started at sector `k` reads sector `j`: every sector from
      `k` up to `j` is whole, and all those before `j` are recognised. */
  predicate Reaches(image: seq<byte>, k: nat, j: nat)
  {
    && k <= j
    && Full(image, j)
    && forall i :: k <= i < j ==> Classify(Identifier(image, i)) != Unrecognised
  }

  /** The scan from `k` reads a sector of kind `c`. */
  ghost predicate SeenFrom(image: seq<byte>, k: nat, c: Recognition)
  {
    exists j :: Reaches(image, k, j) && Classify(Identifier(image, j)) == c
  }

  lemma SliceIsIdentifier(image: seq<byte>, k: nat)
    requires Full(image, k)
    ensures Slice(image, SectorStart(k), SectorStart(k) + SectorSize)[1..6] == Identifier(image, k)
  {
    SliceWithin(image, SectorStart(k), SectorStart(k) + SectorSize);
  }

  /** No sector is read once the image runs out: a scan that sees
      anything starts at a whole sector. */
  lemma SeenNothingPastEnd(image: seq<byte>, k: nat, c: Recognition)
    ensures SeenFrom(image, k, c) ==> Full(image, k)
  {
    if SeenFrom(image, k, c) {
      var j :| Reaches(image, k, j) && Classify(Identifier(image, j)) == c;
      FullBefore(image, k, j);
    }
  }

  /** A sector before a whole one is whole. */
  lemma FullBefore(image: seq<byte>, k: nat, j: nat)
    requires k <= j && Full(image, j)
    ensures Full(image, k)
  {
  }

  /** An unrecognised sector is read and ends the scan, so only its own
      kind is seen. */
  lemma SeenNothingPastUnrecognised(image: seq<byte>, k: nat, c: Recognition)
    requires Full(image, k) && Classify(Identifier(image, k)) == Unrecognised && c != Unrecognised
    ensures !SeenFrom(image, k, c)
  {
    forall j | Reaches(image, k, j)
      ensures j == k
    {
      assert Classify(Identifier(image, k)) == Unrecognised;
    }
  }

  /** Past a recognised sector, a kind is seen when that sector has it or
      the scan from the next sector sees it. */
  lemma SeenStep(image: seq<byte>, k: nat, c: Recognition)
    requires Full(image, k) && Classify(Identifier(image, k)) != Unrecognised
    ensures SeenFrom(image, k, c) <==> Classify(Identifier(image, k)) == c || SeenFrom(image, k + 1, c)
  {
    if SeenFrom(image, k, c) && Classify(Identifier(image, k)) != c {
      SeenStepOn(image, k, c);
    }
    if Classify(Identifier(image, k)) == c || SeenFrom(image, k + 1, c) {
      SeenStepBack(image, k, c);
    }
  }

  lemma SeenStepOn(image: seq<byte>, k: nat, c: Recognition)
    requires Full(image, k) && SeenFrom(image, k, c) && Classify(Identifier(image, k)) != c
    ensures SeenFrom(image, k + 1, c)
  {
    var j :| Reaches(image, k, j) && Classify(Identifier(image, j)) == c;
    assert Reaches(image, k + 1, j);
  }

  lemma SeenStepBack(image: seq<byte>, k: nat, c: Recognition)
    requires Full(image, k) && Classify(Identifier(image, k)) != Unrecognised
    requires Classify(Identifier(image, k)) == c || SeenFrom(image, k + 1, c)
    ensures SeenFrom(image, k, c)
  {
    if Classify(Identifier(image, k)) == c {
      assert Reaches(image, k, k);
    } else {
      var j :| Reaches(image, k + 1, j) && Classify(Identifier(image, j)) == c;
      assert Reaches(image, k, j);
    }
  }

  lemma {:induction false} ScanFromSees(image: seq<byte>, k: nat, bea: bool, vsd: bool, tea: bool)
    ensures ScanFrom(image, k, bea, vsd, tea) <==>
      && (bea || SeenFrom(image, k, Beginning))
      && (vsd || SeenFrom(image, k, Nested))
      && (tea || SeenFrom(image, k, Terminating))
    decreases |image| - SectorStart(k)
  {
    if !Full(image, k) {
      SeenNothingPastEnd(image, k, Beginning);
      SeenNothingPastEnd(image, k, Nested);
      SeenNothingPastEnd(image, k, Terminating);
    } else {
      SliceIsIdentifier(image, k);
      if Classify(Identifier(image, k)) == Unrecognised {
        SeenNothingPastUnrecognised(image, k, Beginning);
        SeenNothingPastUnrecognised(image, k, Nested);
        SeenNothingPastUnrecognised(image, k, Terminating);
      } else {
        SeenStep(image, k, Beginning);
        SeenStep(image, k, Nested);
        SeenStep(image, k, Terminating);
        var c := Classify(Identifier(image, k));
        ScanFromSees(image, k + 1, bea || c == Beginning, vsd || c == Nested, tea || c == Terminating);
      }
    }
  }

  /** An image is valid UDF exactly when the scan, which reads whole
      sectors from 32 KiB on and stops at the first unrecognised one,
      reads a BEA01, an NSR02 or NSR03, and a TEA01 sector. An image too
      short for one sector after the header is never valid. */
  lemma IsValidUdfSees(image: seq<byte>)
    ensures IsValidUdf(image) <==>
      && SeenFrom(image, 0, Beginning)
      && SeenFrom(image, 0, Nested)
      && SeenFrom(image, 0, Terminating)
    ensures |image| < HeaderSize + SectorSize ==> !IsValidUdf(image)
  {
    ScanFromSees(image, 0, false, false, false);
    if |image| < HeaderSize + SectorSize {
      SeenNothingPastEnd(image, 0, Beginning);
    }
  }

  /** `is_valid_udf`'s loop: read a sector, set the flag its identifier
      names (Classify is the chain of identifier tests), and stop at a
      short read or an unknown identifier. */
  method IsValidUdfScan(image: seq<byte>) returns (r: bool)
    ensures r == IsValidUdf(image)
  {
    if |image| < HeaderSize + SectorSize {
      return false;
    }
    var pos := HeaderSize;
    var isValid := true;
    var hasBea, hasVsd, hasTea := false, false, false;
    ghost var k: nat := 0;
    while isValid
      invariant pos == SectorStart(k)
      invariant isValid ==> IsValidUdf(image) == ScanFrom(image, k, hasBea, hasVsd, hasTea)
      invariant !isValid ==> IsValidUdf(image) == (hasBea && hasVsd && hasTea)
      decreases |image| - pos
    {
      var buffer := Slice(image, pos, pos + SectorSize);
      if |buffer| < SectorSize {
        break;
      }
      match Classify(buffer[1..6]) {
        case Beginning => hasBea := true;
        case Nested => hasVsd := true;
        case Terminating => hasTea := true;
        case Passed =>
        case Unrecognised => isValid := false;
      }
      pos := pos + |buffer|;
      k := k + 1;
    }
    return hasBea && hasVsd && hasTea;
  }

  /** The sector sizes `get_sector_size` tries, in order. */
  const SectorSizes: seq<nat> := [4096, 2048, 1024, 512]

  /** Sector 256 of the given size is in the image and starts with an
      accepted tag of an anchor volume descriptor pointer that records its
      own location as 256. */
  predicate HasAnchor(image: seq<byte>, size: nat)
  {
    && |image| >= 257 * size
    && var tag := ParseDescriptorTag(Slice(image, 256 * size, 256 * size + 16), 0);
       && tag.Ok?
       && tag.value.tagLocation == 256
       && tag.value.tagIdentifier == AnchorVolumeDescriptorPointerId
  }

  /** `get_sector_size` from size `i` of the list on. */
  function SectorSizeFrom(image: seq<byte>, i: nat): Result<nat, Error>
    decreases |SectorSizes| - i
  {
    if i >= |SectorSizes| then Err(NoSectorSize)
    else if HasAnchor(image, SectorSizes[i]) then Ok(SectorSizes[i])
    else SectorSizeFrom(image, i + 1)
  }

  function GetSectorSize(image: seq<byte>): Result<nat, Error>
  {
    SectorSizeFrom(image, 0)
  }

  lemma {:induction false} SectorSizeFromFound(image: seq<byte>, i: nat)
    requires i <= |SectorSizes|
    ensures SectorSizeFrom(image, i).Ok? <==> exists j :: i <= j < |SectorSizes| && HasAnchor(image, SectorSizes[j])
    ensures SectorSizeFrom(image, i).Err? ==> SectorSizeFrom(image, i).error == NoSectorSize
    decreases |SectorSizes| - i
  {
    if i < |SectorSizes| {
      SectorSizeFromFound(image, i + 1);
    }
  }

  /** The size found has an anchor and is at least 512. */
  lemma {:induction false} SectorSizeFromHasAnchor(image: seq<byte>, i: nat)
    requires SectorSizeFrom(image, i).Ok?
    ensures HasAnchor(image, SectorSizeFrom(image, i).value) && SectorSizeFrom(image, i).value >= 512
    decreases |SectorSizes| - i
  {
    if !HasAnchor(image, SectorSizes[i]) {
      SectorSizeFromHasAnchor(image, i + 1);
    }
  }

  lemma {:induction false} SectorSizeFromIsFirst(image: seq<byte>, i: nat)
    requires i <= |SectorSizes| && SectorSizeFrom(image, i).Ok?
    ensures exists j :: && i <= j < |SectorSizes| && SectorSizeFrom(image, i).value == SectorSizes[j]
                        && HasAnchor(image, SectorSizes[j])
                        && forall l :: i <= l < j ==> !HasAnchor(image, SectorSizes[l])
    decreases |SectorSizes| - i
  {
    if HasAnchor(image, SectorSizes[i]) {
      assert SectorSizeFrom(image, i).value == SectorSizes[i];
    } else {
      SectorSizeFromIsFirst(image, i + 1);
      var j :| i + 1 <= j < |SectorSizes| && SectorSizeFrom(image, i + 1).value == SectorSizes[j] &&
        HasAnchor(image, SectorSizes[j]) &&
        forall l :: i + 1 <= l < j ==> !HasAnchor(image, SectorSizes[l]);
      assert forall l :: i <= l < j ==> !HasAnchor(image, SectorSizes[l]);
    }
  }

  /** `get_sector_size` answers the first size of 4096, 2048, 1024 and 512
      whose sector 256 holds the anchor, so the image holds at least 257
      such sectors; it fails when no size qualifies. */
  lemma GetSectorSizeIsFirst(image: seq<byte>)
    ensures GetSectorSize(image).Ok? <==> exists j :: 0 <= j < |SectorSizes| && HasAnchor(image, SectorSizes[j])
    ensures GetSectorSize(image).Err? ==> GetSectorSize(image).error == NoSectorSize
    ensures GetSectorSize(image).Ok? ==>
      exists j :: && 0 <= j < |SectorSizes| && GetSectorSize(image).value == SectorSizes[j]
                  && HasAnchor(image, SectorSizes[j])
                  && forall l :: 0 <= l < j ==> !HasAnchor(image, SectorSizes[l])
  {
    SectorSizeFromFound(image, 0);
    if GetSectorSize(image).Ok? {
      SectorSizeFromIsFirst(image, 0);
    }
  }

  /** `get_sector_size`'s loop over the sizes. */
  method FindSectorSize(image: seq<byte>) returns (r: Result<nat, Error>)
    ensures r == GetSectorSize(image)
  {
    for i := 0 to |SectorSizes|
      invariant GetSectorSize(image) == SectorSizeFrom(image, i)
    {
      var size := SectorSizes[i];
      if |image| < 257 * size {
        continue;
      }
      var buffer := Slice(image, 256 * size, 256 * size + 16);
      var tag := ParseDescriptorTag(buffer, 0);
      if tag.Err? {
        continue;
      }
      if tag.value.tagLocation != 256 {
        continue;
      }
      if tag.value.tagIdentifier != AnchorVolumeDescriptorPointerId {
        continue;
      }
      return Ok(size);
    }
    return Err(NoSectorSize);
  }
}
