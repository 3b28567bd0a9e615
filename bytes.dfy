/**
 * Byte-level helpers of the UDF reader: the little-endian decoders
 * `to_uint8/16/32/64`, `round_up`, and Python's clamped slice, which is
 * what every `seek` followed by `read` of the disc image amounts to.
 */
module Bytes {
  import opened Wrappers

  newtype byte = b: int | 0 <= b < 0x100

  /** The ways the UDF reader raises. The Python code raises plain
      exceptions; the constructor names the test that failed. */
  datatype Error =
    | ShortBuffer            // a record or a fixed-width read runs past the buffer
    | CorruptString          // compressed-unicode algorithm byte other than 8 or 16
    | UnencodableUnit        // a code unit in D800-DFFF, which `chr(n)` cannot encode as UTF-8
    | UnknownTagIdentifier   // descriptor tag identifier 0
    | ChecksumMismatch       // descriptor tag checksum byte does not match
    | ReservedNotZero        // a reserved field holds a non-zero byte
    | WrongTagIdentifier     // a descriptor of another kind than the one expected
    | BadPartitionMap        // partition map not of type 1 or not 6 bytes long
    | NotOstaCompliant       // logical volume domain lacks "*OSTA UDF Compliant"
    | UnsupportedAllocation  // long, extended or embedded allocation descriptors
    | UnrecordedExtent       // a short allocation descriptor with non-zero flags
    | NoExtent               // no extent covers a file position
    | DirectoryTooBig        // directory capacity above the largest C int
    | NotValidUdf            // no BEA01/NSR/TEA01 recognition sequence
    | NoSectorSize           // no sector size with an anchor at sector 256
    | UnexpectedDescriptor   // a descriptor the scan does not know
    | MissingLogicalVolume
    | MissingPartition
    | MissingTerminator
    | UnboundPartitionDescriptor // a logical volume before any partition descriptor
    | NoSuchPartition        // partition index or number without an entry
    | NotADirectory          // the root file entry is not a directory
    | UnsupportedRootTag     // the root ICB is not a file entry
    | NoFileSetTag           // the file set extent does not start with a tag

  function Min(a: int, b: int): int { if a <= b then a else b }
  function Max(a: int, b: int): int { if a <= b then b else a }

  function Pow256(n: nat): (r: nat)
    ensures r > 0
  {
    if n == 0 then 1 else 256 * Pow256(n - 1)
  }

  /** The value of a byte string read least significant byte first:
      the sum of s[i] * 256^i. */
  function LittleEndian(s: seq<byte>): nat
  {
    if s == [] then 0 else s[0] as nat + 256 * LittleEndian(s[1..])
  }

  lemma {:induction false} LittleEndianBound(s: seq<byte>)
    ensures LittleEndian(s) < Pow256(|s|)
  {
    if s != [] {
      LittleEndianBound(s[1..]);
      var rest := LittleEndian(s[1..]);
      assert rest <= Pow256(|s| - 1) - 1;
      assert 256 * rest <= 256 * Pow256(|s| - 1) - 256;
    }
  }

  lemma {:induction false} LittleEndianAppend(a: seq<byte>, b: seq<byte>)
    ensures LittleEndian(a + b) == LittleEndian(a) + Pow256(|a|) * LittleEndian(b)
  {
    if a == [] {
      assert a + b == b;
    } else {
      assert (a + b)[0] == a[0];
      assert (a + b)[1..] == a[1..] + b;
      LittleEndianAppend(a[1..], b);
      var a0, la, lb, p := a[0] as nat, LittleEndian(a[1..]), LittleEndian(b), Pow256(|a| - 1);
      assert LittleEndian(a + b) == a0 + 256 * (la + p * lb);
      assert LittleEndian(a) == a0 + 256 * la;
      assert Pow256(|a|) == 256 * p;
      MulAssoc256(p, lb);
    }
  }

  lemma MulAssoc256(p: nat, x: nat)
    ensures 256 * (p * x) == (256 * p) * x
  {
  }

  // The Python decoders shift each byte into place, mask it and OR the
  // parts together. A byte shifted left by 8k bits lies entirely inside
  // its mask and the parts occupy disjoint bits, so the OR is the sum
  // written here. Lemma DecodersAreLittleEndian relates them to
  // LittleEndian.

  function ToUint8(buf: seq<byte>, start: nat): (r: nat)
    requires start + 1 <= |buf|
    ensures r < 0x100
  {
    buf[start] as nat
  }

  function ToUint16(buf: seq<byte>, start: nat): (r: nat)
    requires start + 2 <= |buf|
    ensures r < 0x1_0000
  {
    ToUint8(buf, start + 1) * 0x100 + ToUint8(buf, start)
  }

  function ToUint32(buf: seq<byte>, start: nat): (r: nat)
    requires start + 4 <= |buf|
    ensures r < 0x1_0000_0000
  {
    ToUint16(buf, start + 2) * 0x1_0000 + ToUint16(buf, start)
  }

  function ToUint64(buf: seq<byte>, start: nat): (r: nat)
    requires start + 8 <= |buf|
    ensures r < 0x1_0000_0000_0000_0000
  {
    ToUint32(buf, start + 4) * 0x1_0000_0000 + ToUint32(buf, start)
  }

  lemma ToUint16IsLittleEndian(buf: seq<byte>, start: nat)
    requires start + 2 <= |buf|
    ensures ToUint16(buf, start) == LittleEndian(buf[start..start + 2])
  {
    var s := buf[start..start + 2];
    assert s[1..][1..] == [];
    assert LittleEndian(s[1..]) == s[1] as nat;
    assert LittleEndian(s) == s[0] as nat + 256 * s[1] as nat;
  }

  lemma ToUint32IsLittleEndian(buf: seq<byte>, start: nat)
    requires start + 4 <= |buf|
    ensures ToUint32(buf, start) == LittleEndian(buf[start..start + 4])
  {
    ToUint16IsLittleEndian(buf, start);
    ToUint16IsLittleEndian(buf, start + 2);
    assert buf[start..start + 4] == buf[start..start + 2] + buf[start + 2..start + 4];
    LittleEndianAppend(buf[start..start + 2], buf[start + 2..start + 4]);
    assert Pow256(2) == 0x1_0000;
  }

  lemma ToUint64IsLittleEndian(buf: seq<byte>, start: nat)
    requires start + 8 <= |buf|
    ensures ToUint64(buf, start) == LittleEndian(buf[start..start + 8])
  {
    ToUint32IsLittleEndian(buf, start);
    ToUint32IsLittleEndian(buf, start + 4);
    assert buf[start..start + 8] == buf[start..start + 4] + buf[start + 4..start + 8];
    LittleEndianAppend(buf[start..start + 4], buf[start + 4..start + 8]);
    assert Pow256(2) == 0x1_0000;
    assert Pow256(4) == 0x1_0000_0000;
  }

  /** Every decoder is the little-endian value of its n bytes, below
      256^n: `to_uint16` is b0 + 256 * b1, and `to_uint32` and `to_uint64`
      are the sums of b_i * 256^i. */
  lemma DecodersAreLittleEndian(buf: seq<byte>, start: nat)
    requires start + 8 <= |buf|
    ensures ToUint8(buf, start) == LittleEndian(buf[start..start + 1])
    ensures ToUint16(buf, start) == LittleEndian(buf[start..start + 2])
    ensures ToUint32(buf, start) == LittleEndian(buf[start..start + 4])
    ensures ToUint64(buf, start) == LittleEndian(buf[start..start + 8])
    ensures LittleEndian(buf[start..start + 8]) < Pow256(8)
  {
    assert buf[start..start + 1][1..] == [];
    assert LittleEndian(buf[start..start + 1]) == buf[start] as nat;
    ToUint16IsLittleEndian(buf, start);
    ToUint32IsLittleEndian(buf, start);
    ToUint64IsLittleEndian(buf, start);
    LittleEndianBound(buf[start..start + 8]);
  }

  /** `round_up`: the least multiple of `unit` that is at least `value`. */
  function RoundUp(value: nat, unit: nat): (r: nat)
    requires unit > 0
    ensures r % unit == 0
    ensures value <= r < value + unit
  {
    var q := (value + (unit - 1)) / unit;
    MultipleMod(q, unit);
    q * unit
  }

  lemma MultipleMod(q: nat, unit: nat)
    requires unit > 0
    ensures (q * unit) % unit == 0
  {
    var x := q * unit;
    var d := q - x / unit;
    assert unit * d == x % unit;
  }

  lemma RoundUpIsLeast(value: nat, unit: nat, m: nat)
    requires unit > 0 && m % unit == 0 && value <= m
    ensures RoundUp(value, unit) <= m
  {
    var r := RoundUp(value, unit);
    var a, b := r / unit, m / unit;
    assert r == a * unit;
    assert m == b * unit;
    assert a * unit < (b + 1) * unit;
    MulCancel(a, b + 1, unit);
  }

  lemma MulCancel(x: int, y: int, u: int)
    requires u > 0 && x * u < y * u
    ensures x < y
  {
  }

  /** Python's `s[lo:hi]` for non-negative bounds: both ends are clamped to
      the length of `s`, and a reversed range is empty. A `seek(lo)`
      followed by `read(hi - lo)` on the image returns the same bytes. */
  function Slice(s: seq<byte>, lo: nat, hi: nat): (r: seq<byte>)
    ensures |r| == if lo < hi && lo < |s| then Min(hi, |s|) - lo else 0
    ensures forall k :: 0 <= k < |r| ==> lo + k < |s| && r[k] == s[lo + k]
  {
    if lo < hi && lo < |s| then s[lo..Min(hi, |s|)] else []
  }

  /** A whole read: the slice has every requested byte. */
  lemma SliceWithin(s: seq<byte>, lo: nat, hi: nat)
    requires lo <= hi <= |s|
    ensures Slice(s, lo, hi) == s[lo..hi]
  {
  }

  function SumBytes(s: seq<byte>): nat
  {
    if s == [] then 0 else s[0] as nat + SumBytes(s[1..])
  }

  lemma {:induction false} SumBytesAppend(a: seq<byte>, b: seq<byte>)
    ensures SumBytes(a + b) == SumBytes(a) + SumBytes(b)
  {
    if a == [] {
      assert a + b == b;
    } else {
      assert a + b != [];
      assert (a + b)[0] == a[0];
      assert (a + b)[1..] == a[1..] + b;
      SumBytesAppend(a[1..], b);
    }
  }

  /** The byte string of an ASCII text, for writing constants such as
      b"BEA01" in their own letters. */
  function Ascii(s: string): (r: seq<byte>)
    ensures |r| == |s|
    ensures forall i :: 0 <= i < |s| ==> r[i] as int == s[i] as int % 256
  {
    if s == [] then [] else [(s[0] as int % 256) as byte] + Ascii(s[1..])
  }

  /** `needle in hay` for byte strings. */
  predicate Contains(hay: seq<byte>, needle: seq<byte>)
  {
    exists i | 0 <= i <= |hay| - |needle| :: OccursAt(hay, needle, i)
  }

  predicate OccursAt(hay: seq<byte>, needle: seq<byte>, i: int)
  {
    0 <= i <= |hay| - |needle| && hay[i..i + |needle|] == needle
  }

  predicate IsZero(s: seq<byte>)
  {
    forall k :: 0 <= k < |s| ==> s[k] == 0
  }
}
