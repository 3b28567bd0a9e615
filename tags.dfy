/**
 * The 16-byte descriptor tag that opens every UDF descriptor
 * (ECMA-167 part 3, 7.2), and its validation: a non-zero tag
 * identifier, a matching checksum byte and a zero reserved byte.
 */
module Tags {
  import opened Wrappers
  import opened Bytes

  // Tag identifiers (ECMA-167 part 3, 7.2.1, and part 4, 7.2.1).
  const PrimaryVolumeDescriptorId: nat := 1
  const AnchorVolumeDescriptorPointerId: nat := 2
  const VolumeDescriptorPointerId: nat := 3
  const ImplementationUseVolumeDescriptorId: nat := 4
  const PartitionDescriptorId: nat := 5
  const LogicalVolumeDescriptorId: nat := 6
  const UnallocatedSpaceDescriptorId: nat := 7
  const TerminatingDescriptorId: nat := 8
  const LogicalVolumeIntegrityDescriptorId: nat := 9
  const FileSetDescriptorId: nat := 256
  const FileIdentifierDescriptorId: nat := 257
  const FileEntryId: nat := 261

  datatype DescriptorTag = DescriptorTag(
    tagIdentifier: nat,
    descriptorVersion: nat,
    tagChecksum: nat,
    reserved: nat,
    tagSerialNumber: nat,
    descriptorCrc: nat,
    descriptorCrcLength: nat,
    tagLocation: nat)

  /** The checksum ECMA-167 part 3, 7.2.3 defines: bytes 0-3 and 5-15 of the
      tag added up, modulo 256. Byte 4 holds the checksum itself. */
  function TagChecksum(tag: seq<byte>): nat
    requires |tag| >= 16
  {
    (SumBytes(tag[..4]) + SumBytes(tag[5..16])) % 256
  }

  /** What the standard asks of a tag the reader accepts. */
  predicate TagAccepted(tag: seq<byte>)
  {
    && |tag| >= 16
    && ToUint16(tag, 0) != 0
    && tag[4] as nat == TagChecksum(tag)
    && tag[5] == 0
  }

  lemma SumPrefixStep(t: seq<byte>, i: nat)
    requires i < |t|
    ensures SumBytes(t[..i + 1]) == SumBytes(t[..i]) + t[i] as nat
  {
    assert t[..i + 1] == t[..i] + [t[i]];
    SumBytesAppend(t[..i], [t[i]]);
    assert [t[i]][1..] == [];
  }

  lemma ChecksumSplit(t: seq<byte>)
    requires |t| == 16
    ensures SumBytes(t[..16]) == SumBytes(t[..4]) + t[4] as nat + SumBytes(t[5..16])
  {
    assert t[..16] == t[..4] + [t[4]] + t[5..16];
    SumBytesAppend(t[..4] + [t[4]], t[5..16]);
    SumPrefixStep(t, 4);
    assert t[..5] == t[..4] + [t[4]];
  }

  /** `_assert_checksum` computes the checksum by adding the fifteen bytes
      in a loop and then subtracting 256 until the sum is below 256. */
  method ComputeTagChecksum(buf: seq<byte>, start: nat) returns (checksum: nat)
    requires start + 16 <= |buf|
    ensures checksum == TagChecksum(buf[start..start + 16])
    ensures checksum < 256
  {
    ghost var t := buf[start..start + 16];
    var sum: nat := 0;
    for i := 0 to 16
      invariant sum + (if i > 4 then t[4] as nat else 0) == SumBytes(t[..i])
    {
      SumPrefixStep(t, i);
      if i == 4 {
        continue;
      }
      sum := sum + buf[start + i] as nat;
    }
    ChecksumSplit(t);
    checksum := sum;
    while checksum >= 256
      invariant checksum % 256 == sum % 256
      decreases checksum
    {
      checksum := checksum - 256;
    }
  }

  /** `DescriptorTag(buffer, start)`: the sixteen bytes at `start` must be
      there, and the identifier, the checksum and the reserved byte are
      checked in that order. */
  function ParseDescriptorTag(buf: seq<byte>, start: nat): (r: Result<DescriptorTag, Error>)
    ensures r.Ok? <==> start + 16 <= |buf| && TagAccepted(buf[start..start + 16])
    ensures r.Ok? ==>
      && r.value.tagIdentifier == ToUint16(buf, start)
      && r.value.descriptorVersion == ToUint16(buf, start + 2)
      && r.value.tagChecksum == buf[start + 4] as nat
      && r.value.reserved == 0
      && r.value.tagLocation == ToUint32(buf, start + 12)
    ensures start + 16 > |buf| ==> r == Err(ShortBuffer)
  {
    if start + 16 > |buf| then Err(ShortBuffer)
    else
      var t := buf[start..start + 16];
      var tag := DescriptorTag(
        ToUint16(buf, start),
        ToUint16(buf, start + 2),
        ToUint8(buf, start + 4),
        ToUint8(buf, start + 5),
        ToUint16(buf, start + 6),
        ToUint16(buf, start + 8),
        ToUint16(buf, start + 10),
        ToUint32(buf, start + 12));
      if tag.tagIdentifier == 0 then Err(UnknownTagIdentifier)
      else if TagChecksum(t) != tag.tagChecksum then Err(ChecksumMismatch)
      else if tag.reserved != 0 then Err(ReservedNotZero)
      else Ok(tag)
  }

  /** The checksum does not depend on byte 4, so writing it there seals any
      tag with a non-zero identifier and a zero reserved byte. */
  lemma SealedTagAccepted(t: seq<byte>)
    requires |t| == 16 && ToUint16(t, 0) != 0 && t[5] == 0
    ensures TagAccepted(t[4 := TagChecksum(t) as byte])
    ensures ParseDescriptorTag(t[4 := TagChecksum(t) as byte], 0).Ok?
  {
    var s := t[4 := TagChecksum(t) as byte];
    assert s[..4] == t[..4];
    assert s[5..16] == t[5..16];
    assert s[0] == t[0] && s[1] == t[1];
    assert s[0..16] == s;
  }

  /** Changing the stored checksum byte of an accepted tag rejects it. */
  lemma TamperedTagRejected(t: seq<byte>, b: byte)
    requires |t| == 16 && TagAccepted(t) && b != t[4]
    ensures !TagAccepted(t[4 := b])
    ensures ParseDescriptorTag(t[4 := b], 0) == Err(ChecksumMismatch)
  {
    var s := t[4 := b];
    assert s[..4] == t[..4];
    assert s[5..16] == t[5..16];
    assert s[0] == t[0] && s[1] == t[1];
    assert s[0..16] == s;
  }

  /** `_assert_reserve_space`: every byte of the (clamped) range is zero. */
  method AssertReserveSpace(buf: seq<byte>, start: nat, length: nat) returns (ok: bool)
    ensures ok <==> IsZero(Slice(buf, start, start + length))
  {
    var seg := Slice(buf, start, start + length);
    for i := 0 to |seg|
      invariant IsZero(seg[..i])
    {
      if seg[i] != 0 {
        return false;
      }
    }
    assert seg[..|seg|] == seg;
    return true;
  }
}
