/**
 * OSTA compressed unicode (`to_dchars`, `to_dstring`). A d-character field
 * starts with a compression-algorithm byte: 8 means one byte per code unit,
 * 16 means big-endian byte pairs. The Python code turns each code unit
 * into a character and encodes it as UTF-8, which fails for a surrogate
 * (a unit in D800-DFFF); here the result is the sequence of code units
 * itself, and a surrogate is an error.
 */
module DChars {
  import opened Wrappers
  import opened Bytes

  /** The code units held in the bytes after the algorithm byte. In the
      16-bit form a lone trailing byte is the high half of a unit whose low
      half is zero. */
  function DecodeUnits(chunk: seq<byte>, wide: bool): seq<nat>
    decreases |chunk|
  {
    if chunk == [] then []
    else if !wide then [chunk[0] as nat] + DecodeUnits(chunk[1..], wide)
    else if |chunk| == 1 then [chunk[0] as nat * 0x100]
    else [chunk[0] as nat * 0x100 + chunk[1] as nat] + DecodeUnits(chunk[2..], wide)
  }

  /** A unit `chr(n).encode('utf-8')` rejects: a UTF-16 surrogate. */
  predicate IsSurrogate(u: nat)
  {
    0xD800 <= u <= 0xDFFF
  }

  /** Every unit of `units` can be encoded as UTF-8. */
  predicate Encodable(units: seq<nat>)
  {
    forall k :: 0 <= k < |units| ==> !IsSurrogate(units[k])
  }

  /** `to_dchars(buffer, offset, count)` as a value: the `count` bytes at
      `offset` decoded, or the exception the Python code raises. */
  function DChars(buf: seq<byte>, offset: nat, count: nat): (r: Result<seq<nat>, Error>)
    ensures count == 0 ==> r == Ok([])
    ensures r.Ok? ==> Encodable(r.value)
    ensures r.Ok? || r == Err(UnencodableUnit) <==>
      count == 0 || (offset + count <= |buf| && (buf[offset] == 8 || buf[offset] == 16))
    ensures r == Err(CorruptString) <==> count > 0 && offset < |buf| && buf[offset] != 8 && buf[offset] != 16
    ensures r == Err(UnencodableUnit) ==> buf[offset] == 16
  {
    if count == 0 then Ok([])
    else if offset >= |buf| then Err(ShortBuffer)
    else if buf[offset] != 8 && buf[offset] != 16 then Err(CorruptString)
    else if offset + count > |buf| then Err(ShortBuffer)
    else
      var units := DecodeUnits(buf[offset + 1..offset + count], buf[offset] == 16);
      if Encodable(units) then Ok(units)
      else
        NarrowEncodable(buf[offset + 1..offset + count]);
        Err(UnencodableUnit)
  }

  /** Units of algorithm 8 are below 256, so never surrogates. */
  lemma {:induction false} NarrowEncodable(chunk: seq<byte>)
    ensures Encodable(DecodeUnits(chunk, false))
  {
    DecodeNarrow(chunk);
  }

  /** With algorithm 8 every byte after the algorithm byte is one unit. */
  lemma {:induction false} DecodeNarrow(chunk: seq<byte>)
    ensures |DecodeUnits(chunk, false)| == |chunk|
    ensures forall k :: 0 <= k < |chunk| ==> DecodeUnits(chunk, false)[k] == chunk[k] as nat
  {
    if chunk != [] {
      DecodeNarrow(chunk[1..]);
    }
  }

  /** With algorithm 16 unit k is the big-endian pair at 2k, 2k+1, and a
      lone final byte stands for itself shifted left by 8. */
  lemma {:induction false} DecodeWide(chunk: seq<byte>)
    ensures |DecodeUnits(chunk, true)| == (|chunk| + 1) / 2
    ensures forall k :: 0 <= k < (|chunk| + 1) / 2 ==>
      DecodeUnits(chunk, true)[k] ==
        chunk[2 * k] as nat * 0x100 + (if 2 * k + 1 < |chunk| then chunk[2 * k + 1] as nat else 0)
  {
    if |chunk| >= 2 {
      DecodeWide(chunk[2..]);
      var rest := DecodeUnits(chunk[2..], true);
      assert DecodeUnits(chunk, true) == [chunk[0] as nat * 0x100 + chunk[1] as nat] + rest;
      forall k | 1 <= k < (|chunk| + 1) / 2
        ensures DecodeUnits(chunk, true)[k] ==
          chunk[2 * k] as nat * 0x100 + (if 2 * k + 1 < |chunk| then chunk[2 * k + 1] as nat else 0)
      {
        assert DecodeUnits(chunk, true)[k] == rest[k - 1];
        assert chunk[2..][2 * (k - 1)] == chunk[2 * k];
      }
    }
  }

  /** The decoded string of a well-formed field. Count 1 (the algorithm
      byte alone) gives the empty string; algorithm 8 gives count - 1 units
      and algorithm 16 gives count / 2 units, and fails exactly when one of
      them is a surrogate. */
  lemma DCharsShape(buf: seq<byte>, offset: nat, count: nat)
    requires count > 0 && offset + count <= |buf|
    ensures buf[offset] == 8 ==>
      DChars(buf, offset, count).Ok? &&
      |DChars(buf, offset, count).value| == count - 1 &&
      forall k :: 0 <= k < count - 1 ==> DChars(buf, offset, count).value[k] == buf[offset + 1 + k] as nat
    ensures buf[offset] == 16 ==>
      (DChars(buf, offset, count).Ok? <==> forall k :: 0 <= k < count / 2 ==> !IsSurrogate(WideUnit(buf, offset, count, k))) &&
      (DChars(buf, offset, count).Err? ==> DChars(buf, offset, count).error == UnencodableUnit) &&
      (DChars(buf, offset, count).Ok? ==>
        |DChars(buf, offset, count).value| == count / 2 &&
        forall k :: 0 <= k < count / 2 ==> DChars(buf, offset, count).value[k] == WideUnit(buf, offset, count, k))
  {
    var chunk := buf[offset + 1..offset + count];
    DecodeNarrow(chunk);
    DecodeWide(chunk);
    NarrowEncodable(chunk);
    if buf[offset] == 16 {
      var units := DecodeUnits(chunk, true);
      assert forall k :: 0 <= k < count / 2 ==> units[k] == WideUnit(buf, offset, count, k);
    }
  }

  /** Unit k of an algorithm-16 field: the big-endian pair after the
      algorithm byte, a lone last byte standing for itself shifted left
      by 8. */
  function WideUnit(buf: seq<byte>, offset: nat, count: nat, k: nat): nat
    requires offset + 1 + 2 * k < offset + count <= |buf|
  {
    buf[offset + 1 + 2 * k] as nat * 0x100 + (if 2 * k + 2 < count then buf[offset + 2 + 2 * k] as nat else 0)
  }

  /** The inverse direction: writing code units in compressed form. */
  function EncodeUnits(units: seq<nat>, wide: bool): (r: seq<byte>)
    requires forall k :: 0 <= k < |units| ==> units[k] < if wide then 0x1_0000 else 0x100
    ensures |r| == if wide then 2 * |units| else |units|
  {
    if units == [] then []
    else if wide then [(units[0] / 0x100) as byte, (units[0] % 0x100) as byte] + EncodeUnits(units[1..], wide)
    else [units[0] as byte] + EncodeUnits(units[1..], wide)
  }

  function EncodeDChars(units: seq<nat>, wide: bool): (r: seq<byte>)
    requires forall k :: 0 <= k < |units| ==> units[k] < if wide then 0x1_0000 else 0x100
    ensures |r| == 1 + if wide then 2 * |units| else |units|
  {
    [if wide then 16 else 8] + EncodeUnits(units, wide)
  }

  lemma {:induction false} DecodeEncodeUnits(units: seq<nat>, wide: bool)
    requires forall k :: 0 <= k < |units| ==> units[k] < if wide then 0x1_0000 else 0x100
    ensures DecodeUnits(EncodeUnits(units, wide), wide) == units
  {
    if units != [] {
      var e := EncodeUnits(units, wide);
      DecodeEncodeUnits(units[1..], wide);
      if wide {
        EncodePair(units[0]);
        assert e[2..] == EncodeUnits(units[1..], wide);
      } else {
        ByteRoundTrip(units[0]);
        assert e[1..] == EncodeUnits(units[1..], wide);
      }
    }
  }

  lemma EncodePair(u: nat)
    requires u < 0x1_0000
    ensures ((u / 0x100) as byte) as nat * 0x100 + ((u % 0x100) as byte) as nat == u
  {
    ByteRoundTrip(u / 0x100);
    ByteRoundTrip(u % 0x100);
  }

  lemma ByteRoundTrip(x: nat)
    requires x < 0x100
    ensures (x as byte) as nat == x
  {
  }

  /** Decoding a field written by EncodeDChars gives back its units. */
  lemma DCharsRoundTrip(units: seq<nat>, wide: bool)
    requires forall k :: 0 <= k < |units| ==> units[k] < if wide then 0x1_0000 else 0x100
    requires Encodable(units)
    ensures DChars(EncodeDChars(units, wide), 0, |EncodeDChars(units, wide)|) == Ok(units)
  {
    var e := EncodeDChars(units, wide);
    assert e[1..|e|] == EncodeUnits(units, wide);
    DecodeEncodeUnits(units, wide);
  }

  /** One step of the decoding loop: the unit at byte i of the chunk,
      followed by the units of the bytes after it. */
  lemma DecodeStep(chunk: seq<byte>, i: nat, wide: bool)
    requires i < |chunk|
    ensures !wide ==>
      DecodeUnits(chunk[i..], wide) == [chunk[i] as nat] + DecodeUnits(chunk[i + 1..], wide)
    ensures wide && i + 1 < |chunk| ==>
      DecodeUnits(chunk[i..], wide) ==
        [chunk[i] as nat * 0x100 + chunk[i + 1] as nat] + DecodeUnits(chunk[i + 2..], wide)
    ensures wide && i + 1 == |chunk| ==>
      DecodeUnits(chunk[i..], wide) == [chunk[i] as nat * 0x100] + DecodeUnits(chunk[i + 1..], wide)
  {
    var s := chunk[i..];
    assert s[1..] == chunk[i + 1..];
    if i + 1 < |chunk| {
      assert s[2..] == chunk[i + 2..];
    } else {
      assert chunk[i + 1..] == [];
    }
  }

  /** What one iteration of the loop in ToDChars consumes and yields. */
  lemma DecodeLoopStep(buf: seq<byte>, offset: nat, count: nat, start: nat, pos: nat, ch: nat, wide: bool)
    requires offset + count <= |buf| && 1 <= start < pos <= count
    requires !wide ==> pos == start + 1 && ch == buf[offset + start] as nat
    requires wide ==>
      (pos == start + 2 && ch == buf[offset + start] as nat * 0x100 + buf[offset + start + 1] as nat) ||
      (pos == start + 1 == count && ch == buf[offset + start] as nat * 0x100)
    ensures DecodeUnits(buf[offset + start..offset + count], wide) ==
      [ch] + DecodeUnits(buf[offset + pos..offset + count], wide)
  {
    var chunk := buf[offset + start..offset + count];
    DecodeStep(chunk, 0, wide);
    assert chunk[0..] == chunk;
    assert chunk[pos - start..] == buf[offset + pos..offset + count];
  }

  /** `to_dchars` as the Python code runs it: read the algorithm byte, then
      decode the units and encode them one by one. */
  method ToDChars(buf: seq<byte>, offset: nat, count: nat) returns (r: Result<seq<nat>, Error>)
    ensures r == DChars(buf, offset, count)
  {
    if count == 0 {
      return Ok([]);
    }
    if offset >= |buf| {
      return Err(ShortBuffer);
    }
    var alg := buf[offset];
    if alg != 8 && alg != 16 {
      return Err(CorruptString);
    }
    var wide := alg == 16;
    var decoded := DecodeLoop(buf, offset, count, wide);
    if decoded.Err? {
      return decoded;
    }
    var encodable := CheckEncodable(decoded.value);
    if !encodable {
      if !wide {
        NarrowEncodable(buf[offset + 1..offset + count]);
      }
      return Err(UnencodableUnit);
    }
    return decoded;
  }

  /** The `pos` loop of `to_dchars`: one or two bytes per code unit while
      `pos < count`, failing on a read past the buffer. */
  method DecodeLoop(buf: seq<byte>, offset: nat, count: nat, wide: bool) returns (r: Result<seq<nat>, Error>)
    requires 1 <= count && offset < |buf|
    ensures offset + count <= |buf| ==> r == Ok(DecodeUnits(buf[offset + 1..offset + count], wide))
    ensures offset + count > |buf| ==> r == Err(ShortBuffer)
  {
    var result: seq<nat> := [];
    var pos: nat := 1;
    while pos < count
      invariant 1 <= pos <= count
      invariant offset + pos <= |buf|
      invariant offset + count <= |buf| ==>
        result + DecodeUnits(buf[offset + pos..offset + count], wide) ==
          DecodeUnits(buf[offset + 1..offset + count], wide)
      decreases count - pos
    {
      if offset + pos >= |buf| {
        return Err(ShortBuffer);
      }
      ghost var start := pos;
      var ch: nat := 0;
      if wide {
        ch := buf[offset + pos] as nat * 0x100;
        pos := pos + 1;
      }
      if pos < count {
        if offset + pos >= |buf| {
          return Err(ShortBuffer);
        }
        ch := ch + buf[offset + pos] as nat;
        pos := pos + 1;
      }
      if offset + count <= |buf| {
        ghost var rest := DecodeUnits(buf[offset + pos..offset + count], wide);
        DecodeLoopStep(buf, offset, count, start, pos, ch, wide);
        assert (result + [ch]) + rest == result + ([ch] + rest);
      }
      result := result + [ch];
    }
    assert buf[offset + count..offset + count] == [];
    assert result + [] == result;
    return Ok(result);
  }

  /** The list comprehension that encodes each unit: it stops at the first
      surrogate. */
  method CheckEncodable(units: seq<nat>) returns (ok: bool)
    ensures ok == Encodable(units)
  {
    for i := 0 to |units|
      invariant forall k :: 0 <= k < i ==> !IsSurrogate(units[k])
    {
      if IsSurrogate(units[i]) {
        return false;
      }
    }
    return true;
  }

  /** `to_dstring`: a d-string field of `count` bytes whose last byte gives
      the length of the d-characters at its start. Every field the reader
      decodes is 32 or 128 bytes wide. */
  function ToDString(buf: seq<byte>, offset: nat, count: nat): (r: Result<seq<nat>, Error>)
    requires count > 0
    ensures offset + count > |buf| ==> r == Err(ShortBuffer)
    ensures offset + count <= |buf| ==> r == DChars(buf, offset, buf[offset + count - 1] as nat)
  {
    if offset + count - 1 >= |buf| then Err(ShortBuffer)
    else DChars(buf, offset, ToUint8(buf, offset + count - 1))
  }
}
