/**
 * Serial numbers of PlayStation 2 games: the raw scan of a disc image for
 * a serial token (`_find_in_binary`), the normalisation of a candidate
 * name, the prefix whitelist and the lookup in the six region tables.
 * Byte strings are `seq<byte>`, as Python's `bytes`.
 */
module Serials {
  import opened Wrappers
  import opened Bytes

  /** Bytes read from the image at a time by the raw scan: 10 MiB. */
  const BufferSize: nat := 1024 * 1024 * 10

  /** How far the raw scan steps back after a page. */
  const MaxPrefixLength: nat := 6

  /** The serial prefixes, most frequent first; the raw scan tries them in
      this order. Each is written as its ASCII bytes. */
  const Prefixes: seq<seq<byte>> := [
    [0x53, 0x4C, 0x50, 0x4D],                // SLPM
    [0x53, 0x4C, 0x45, 0x53],                // SLES
    [0x53, 0x43, 0x45, 0x53],                // SCES
    [0x53, 0x4C, 0x55, 0x53],                // SLUS
    [0x53, 0x4C, 0x50, 0x53],                // SLPS
    [0x53, 0x43, 0x55, 0x53],                // SCUS
    [0x53, 0x43, 0x50, 0x53],                // SCPS
    [0x53, 0x43, 0x41, 0x4A],                // SCAJ
    [0x53, 0x4C, 0x4B, 0x41],                // SLKA
    [0x53, 0x43, 0x4B, 0x41],                // SCKA
    [0x53, 0x4C, 0x41, 0x4A],                // SLAJ
    [0x4E, 0x50, 0x4A, 0x44],                // NPJD
    [0x54, 0x43, 0x50, 0x53],                // TCPS
    [0x4B, 0x4F, 0x45, 0x49],                // KOEI
    [0x4E, 0x50, 0x55, 0x44],                // NPUD
    [0x41, 0x4C, 0x43, 0x48],                // ALCH
    [0x50, 0x42, 0x47, 0x50],                // PBGP
    [0x4E, 0x50, 0x45, 0x44],                // NPED
    [0x43, 0x50, 0x43, 0x53],                // CPCS
    [0x46, 0x56, 0x47, 0x4B],                // FVGK
    [0x53, 0x43, 0x45, 0x44],                // SCED
    [0x4E, 0x50, 0x4A, 0x43],                // NPJC
    [0x47, 0x4E],                            // GN
    [0x47, 0x55, 0x53, 0x54],                // GUST
    [0x48, 0x53, 0x4E],                      // HSN
    [0x53, 0x4C, 0x45, 0x44],                // SLED
    [0x44, 0x4D, 0x50],                      // DMP
    [0x49, 0x4E, 0x43, 0x48],                // INCH
    [0x50, 0x42, 0x50, 0x58],                // PBPX
    [0x4B, 0x41, 0x44],                      // KAD
    [0x53, 0x4C, 0x50, 0x4E],                // SLPN
    [0x54, 0x43, 0x45, 0x53],                // TCES
    [0x4E, 0x50, 0x55, 0x43],                // NPUC
    [0x44, 0x45, 0x53, 0x52],                // DESR
    [0x50, 0x41, 0x50, 0x58],                // PAPX
    [0x50, 0x42, 0x50, 0x53],                // PBPS
    [0x50, 0x43, 0x50, 0x58],                // PCPX
    [0x52, 0x4F, 0x53, 0x45],                // ROSE
    [0x53, 0x52, 0x50, 0x4D],                // SRPM
    [0x53, 0x43, 0x45, 0x45],                // SCEE
    [0x48, 0x41, 0x4B, 0x55],                // HAKU
    [0x47, 0x45, 0x52],                      // GER
    [0x48, 0x4B, 0x49, 0x44],                // HKID
    [0x4D, 0x50, 0x52],                      // MPR
    [0x47, 0x57, 0x53],                      // GWS
    [0x48, 0x4B, 0x48, 0x53],                // HKHS
    [0x4E, 0x53],                            // NS
    [0x58, 0x53, 0x50, 0x4C],                // XSPL
    [0x53, 0x69, 0x65, 0x72, 0x72, 0x61],    // Sierra
    [0x41, 0x52, 0x5A, 0x45],                // ARZE
    [0x56, 0x55, 0x47, 0x4A],                // VUGJ
    [0x56, 0x4F],                            // VO
    [0x57, 0x46, 0x4C, 0x44]                 // WFLD
  ]

  const Dot: byte := 0x2E
  const Dash: byte := 0x2D
  const Underscore: byte := 0x5F
  const Bar: byte := 0x7C
  const Semicolon: byte := 0x3B

  /** A sign that the token is a placeholder, not a serial. */
  const Placeholder: seq<byte> := Ascii("999.99")

  /** The class `[\_|\-]` of the pattern. */
  predicate IsSeparator(b: byte)
  {
    b == Underscore || b == Bar || b == Dash
  }

  predicate IsDigit(b: byte)
  {
    0x30 <= b <= 0x39
  }

  /** The class `[\d|\.]` of the pattern. */
  predicate IsNumberByte(b: byte)
  {
    IsDigit(b) || b == Bar || b == Dot
  }

  /** What the pattern `prefix[\_|\-][\d|\.]+\;` matches: the prefix, a
      separator, one or more number bytes and a semicolon. */
  predicate IsToken(prefix: seq<byte>, t: seq<byte>)
  {
    && |t| >= |prefix| + 3
    && t[..|prefix|] == prefix
    && IsSeparator(t[|prefix|])
    && (forall k :: |prefix| < k < |t| - 1 ==> IsNumberByte(t[k]))
    && t[|t| - 1] == Semicolon
  }

  /** The length of the longest run of number bytes starting at `j`. */
  function RunLength(s: seq<byte>, j: nat): (n: nat)
    requires j <= |s|
    ensures j + n <= |s|
    ensures forall k :: j <= k < j + n ==> IsNumberByte(s[k])
    ensures j + n < |s| ==> !IsNumberByte(s[j + n])
    decreases |s| - j
  {
    if j < |s| && IsNumberByte(s[j]) then 1 + RunLength(s, j + 1) else 0
  }

  lemma {:induction false} RunLengthExact(s: seq<byte>, j: nat, m: nat)
    requires j <= m < |s|
    requires forall k :: j <= k < m ==> IsNumberByte(s[k])
    requires !IsNumberByte(s[m])
    ensures RunLength(s, j) == m - j
    decreases m - j
  {
    if j < m {
      RunLengthExact(s, j + 1, m);
    }
  }

  /** The end of the match of the pattern at `i`, if there is one. The
      run of number bytes is greedy, and no shorter run can be followed by
      the semicolon, which is not a number byte. */
  function MatchAt(s: seq<byte>, prefix: seq<byte>, i: nat): Option<nat>
    requires i <= |s|
  {
    var p := i + |prefix|;
    if p < |s| && s[i..p] == prefix && IsSeparator(s[p]) then
      var n := RunLength(s, p + 1);
      if n > 0 && p + 1 + n < |s| && s[p + 1 + n] == Semicolon then Some(p + 2 + n) else None
    else None
  }

  /** A match at `i` ending at `e` covers a token. */
  lemma MatchIsToken(s: seq<byte>, prefix: seq<byte>, i: nat, e: nat)
    requires i <= e <= |s|
    requires MatchAt(s, prefix, i) == Some(e)
    ensures IsToken(prefix, s[i..e])
  {
    var p := i + |prefix|;
    var t := s[i..e];
    assert t[..|prefix|] == s[i..p];
    forall k | |prefix| < k < |t| - 1
      ensures IsNumberByte(t[k])
    {
      assert t[k] == s[i + k];
    }
  }

  /** A token at `i` ending at `e` is what the pattern matches there. */
  lemma TokenIsMatch(s: seq<byte>, prefix: seq<byte>, i: nat, e: nat)
    requires i <= e <= |s|
    requires IsToken(prefix, s[i..e])
    ensures MatchAt(s, prefix, i) == Some(e)
  {
    var p := i + |prefix|;
    var t := s[i..e];
    assert s[i..p] == t[..|prefix|];
    assert s[p] == t[|prefix|];
    forall k | p + 1 <= k < e - 1
      ensures IsNumberByte(s[k])
    {
      assert s[k] == t[k - i];
    }
    assert s[e - 1] == t[|t| - 1];
    RunLengthExact(s, p + 1, e - 1);
  }

  /** The pattern matches at `i` exactly the bytes up to `e` when those
      bytes form a token. */
  lemma MatchAtIsToken(s: seq<byte>, prefix: seq<byte>, i: nat, e: nat)
    requires i <= e <= |s|
    ensures MatchAt(s, prefix, i) == Some(e) <==> IsToken(prefix, s[i..e])
  {
    if IsToken(prefix, s[i..e]) {
      TokenIsMatch(s, prefix, i, e);
    }
    if MatchAt(s, prefix, i) == Some(e) {
      MatchIsToken(s, prefix, i, e);
    }
  }

  /** `re.search` from `i`: the leftmost match, as its start and end. */
  function SearchFrom(s: seq<byte>, prefix: seq<byte>, i: nat): (r: Option<(nat, nat)>)
    requires i <= |s|
    ensures r.Some? ==> i <= r.value.0 < r.value.1 <= |s| && MatchAt(s, prefix, r.value.0) == Some(r.value.1)
    decreases |s| - i
  {
    match MatchAt(s, prefix, i)
    case Some(e) => Some((i, e))
    case None => if i < |s| then SearchFrom(s, prefix, i + 1) else None
  }

  function Search(s: seq<byte>, prefix: seq<byte>): Option<(nat, nat)>
  {
    SearchFrom(s, prefix, 0)
  }

  /** No token starts at `i` when the pattern does not match there. */
  lemma NoTokenAt(s: seq<byte>, prefix: seq<byte>, i: nat)
    requires i <= |s|
    requires MatchAt(s, prefix, i).None?
    ensures forall e :: i <= e <= |s| ==> !IsToken(prefix, s[i..e])
  {
    forall e | i <= e <= |s|
      ensures !IsToken(prefix, s[i..e])
    {
      MatchAtIsToken(s, prefix, i, e);
    }
  }

  /** The search finds the leftmost token of the prefix. */
  lemma {:induction false} SearchFromIsLeftmost(s: seq<byte>, prefix: seq<byte>, i: nat)
    requires i <= |s|
    requires SearchFrom(s, prefix, i).Some?
    ensures var m := SearchFrom(s, prefix, i).value;
      && IsToken(prefix, s[m.0..m.1])
      && forall j, e :: i <= j < m.0 && j <= e <= |s| ==> !IsToken(prefix, s[j..e])
    decreases |s| - i
  {
    if MatchAt(s, prefix, i).Some? {
      MatchAtIsToken(s, prefix, i, MatchAt(s, prefix, i).value);
    } else {
      NoTokenAt(s, prefix, i);
      SearchFromIsLeftmost(s, prefix, i + 1);
    }
  }

  /** The search finds nothing only when the buffer holds no token of the
      prefix. */
  lemma {:induction false} SearchFromNone(s: seq<byte>, prefix: seq<byte>, i: nat)
    requires i <= |s|
    requires SearchFrom(s, prefix, i).None?
    ensures forall j, e :: i <= j <= e <= |s| ==> !IsToken(prefix, s[j..e])
    decreases |s| - i
  {
    NoTokenAt(s, prefix, i);
    if i < |s| {
      SearchFromNone(s, prefix, i + 1);
    }
  }

  /** `m.group()` with every `.` and `;` removed and every `_` turned into
      `-`. */
  function Clean(t: seq<byte>): (r: seq<byte>)
    ensures forall k :: 0 <= k < |r| ==> r[k] != Dot && r[k] != Semicolon && r[k] != Underscore
  {
    if t == [] then []
    else CleanByte(t[0]) + Clean(t[1..])
  }

  function CleanByte(b: byte): seq<byte>
  {
    if b == Dot || b == Semicolon then [] else if b == Underscore then [Dash] else [b]
  }

  /** Cleaning works byte by byte. */
  lemma {:induction false} CleanAppend(a: seq<byte>, b: seq<byte>)
    ensures Clean(a + b) == Clean(a) + Clean(b)
  {
    if a == [] {
      assert a + b == b;
    } else {
      assert (a + b)[1..] == a[1..] + b;
      CleanAppend(a[1..], b);
    }
  }

  /** The serial the prefix loop of `_find_in_binary` takes from one
      buffer, trying `prefixes` from the `k`-th on: the first prefix whose
      leftmost token is not a placeholder decides. */
  function SerialFrom(prefixes: seq<seq<byte>>, buffer: seq<byte>, k: nat): Option<seq<byte>>
    decreases |prefixes| - k
  {
    if k >= |prefixes| then None
    else match Search(buffer, prefixes[k])
      case Some(m) =>
        if Contains(buffer[m.0..m.1], Placeholder) then SerialFrom(prefixes, buffer, k + 1)
        else Some(Clean(buffer[m.0..m.1]))
      case None => SerialFrom(prefixes, buffer, k + 1)
  }

  /** The serial of one buffer, with the prefixes in their list order. */
  function SerialIn(buffer: seq<byte>): Option<seq<byte>>
  {
    SerialFrom(Prefixes, buffer, 0)
  }

  /** The prefix yields a serial from the buffer: its leftmost token is
      not a placeholder. */
  predicate Accepted(buffer: seq<byte>, prefix: seq<byte>)
  {
    var m := Search(buffer, prefix);
    m.Some? && !Contains(buffer[m.value.0..m.value.1], Placeholder)
  }

  /** The cleaned leftmost token of an accepted prefix. */
  function CleanedToken(buffer: seq<byte>, prefix: seq<byte>): seq<byte>
    requires Accepted(buffer, prefix)
  {
    var m := Search(buffer, prefix).value;
    Clean(buffer[m.0..m.1])
  }

  /** There is no serial exactly when no prefix is accepted. */
  lemma {:induction false} SerialFromNone(prefixes: seq<seq<byte>>, buffer: seq<byte>, k: nat)
    requires k <= |prefixes|
    ensures SerialFrom(prefixes, buffer, k).None? <==> forall j :: k <= j < |prefixes| ==> !Accepted(buffer, prefixes[j])
    decreases |prefixes| - k
  {
    if k < |prefixes| {
      SerialFromNone(prefixes, buffer, k + 1);
    }
  }

  /** A serial is the cleaned token of the first accepted prefix. */
  lemma {:induction false} SerialFromIsFirst(prefixes: seq<seq<byte>>, buffer: seq<byte>, k: nat)
    requires k <= |prefixes|
    requires SerialFrom(prefixes, buffer, k).Some?
    ensures exists j :: && k <= j < |prefixes| && Accepted(buffer, prefixes[j])
                        && SerialFrom(prefixes, buffer, k).value == CleanedToken(buffer, prefixes[j])
                        && forall l :: k <= l < j ==> !Accepted(buffer, prefixes[l])
    decreases |prefixes| - k
  {
    if Accepted(buffer, prefixes[k]) {
      assert SerialFrom(prefixes, buffer, k).value == CleanedToken(buffer, prefixes[k]);
    } else {
      assert SerialFrom(prefixes, buffer, k) == SerialFrom(prefixes, buffer, k + 1);
      SerialFromIsFirst(prefixes, buffer, k + 1);
      var j :| && k + 1 <= j < |prefixes| && Accepted(buffer, prefixes[j])
               && SerialFrom(prefixes, buffer, k + 1).value == CleanedToken(buffer, prefixes[j])
               && forall l :: k + 1 <= l < j ==> !Accepted(buffer, prefixes[l]);
      assert forall l :: k <= l < j ==> !Accepted(buffer, prefixes[l]);
    }
  }

  /** The prefix loop of `_find_in_binary` on one buffer. */
  method SearchPrefixesIn(prefixes: seq<seq<byte>>, buffer: seq<byte>) returns (r: Option<seq<byte>>)
    ensures r == SerialFrom(prefixes, buffer, 0)
  {
    for k := 0 to |prefixes|
      invariant SerialFrom(prefixes, buffer, 0) == SerialFrom(prefixes, buffer, k)
    {
      var m := Search(buffer, prefixes[k]);
      if m.Some? && !Contains(buffer[m.value.0..m.value.1], Placeholder) {
        return Some(Clean(buffer[m.value.0..m.value.1]));
      }
    }
    return None;
  }

  method SearchPrefixes(buffer: seq<byte>) returns (r: Option<seq<byte>>)
    ensures r == SerialIn(buffer)
  {
    r := SearchPrefixesIn(Prefixes, buffer);
  }

  /** The buffer `f.read(BUFFER_SIZE)` returns at file position `p`. */
  function Page(data: seq<byte>, p: nat): seq<byte>
  {
    Slice(data, p, p + BufferSize)
  }

  /** Where the raw scan reads next after the page at `p`: six bytes back
      from the end of the page when the page ends strictly inside the image
      past its sixth byte, else at the end of the page. */
  function NextPage(data: seq<byte>, p: nat): (q: nat)
    requires p < |data|
    ensures q > p
  {
    var pos := p + |Page(data, p)|;
    if MaxPrefixLength < pos < |data| then pos - MaxPrefixLength else pos
  }

  /** `_find_in_binary` from file position `p`, trying `prefixes` on each
      page: the first page, in reading order, whose buffer yields a serial;
      None at the end of the image. */
  function ScanPagesFrom(prefixes: seq<seq<byte>>, data: seq<byte>, p: nat): Option<seq<byte>>
    decreases |data| - p
  {
    if p >= |data| then None
    else
      var serial := SerialFrom(prefixes, Page(data, p), 0);
      if serial.Some? then serial else ScanPagesFrom(prefixes, data, NextPage(data, p))
  }

  /** The serial `_find_in_binary` finds in an image. */
  function BinarySerial(data: seq<byte>): Option<seq<byte>>
  {
    ScanPagesFrom(Prefixes, data, 0)
  }

  /** A page that ends inside the image is a full 10 MiB read, and the next
      page starts with its last six bytes, so the pages overlap by the
      length of the longest prefix. */
  lemma PagesOverlap(data: seq<byte>, p: nat)
    requires p < |data|
    ensures NextPage(data, p) < |data| ==>
      && |Page(data, p)| == BufferSize
      && NextPage(data, p) == p + BufferSize - MaxPrefixLength
      && Slice(data, NextPage(data, p), NextPage(data, p) + MaxPrefixLength) == Page(data, p)[BufferSize - MaxPrefixLength..]
  {
    if NextPage(data, p) < |data| {
      var q := NextPage(data, p);
      SliceWithin(data, p, p + BufferSize);
      SliceWithin(data, q, q + MaxPrefixLength);
    }
  }

  /** An image of at most one page is searched as a single buffer, and an
      empty one yields nothing. */
  lemma SinglePage(prefixes: seq<seq<byte>>, data: seq<byte>)
    requires |data| <= BufferSize
    ensures ScanPagesFrom(prefixes, data, 0) == if data == [] then None else SerialFrom(prefixes, data, 0)
  {
    if data != [] {
      SliceWithin(data, 0, |data|);
      assert Page(data, 0) == data;
      assert NextPage(data, 0) == |data|;
    }
  }

  /** The file positions the raw scan reads a page at, from `p` on, in
      reading order, until the end of the image. */
  function PagesFrom(data: seq<byte>, p: nat): (r: seq<nat>)
    ensures forall i :: 0 <= i < |r| ==> p <= r[i] < |data|
    decreases |data| - p
  {
    if p >= |data| then [] else [p] + PagesFrom(data, NextPage(data, p))
  }

  /** The pages read are exactly the chain of NextPage steps from `p`
      while inside the image: the first is `p`, each next one is NextPage
      of the one before, and the step after the last leaves the image. */
  lemma {:induction false} PagesFromAreTheSteps(data: seq<byte>, p: nat)
    ensures var pages := PagesFrom(data, p);
      && (pages == [] <==> p >= |data|)
      && (pages != [] ==> pages[0] == p && NextPage(data, pages[|pages| - 1]) >= |data|)
      && forall i :: 0 <= i < |pages| - 1 ==> pages[i + 1] == NextPage(data, pages[i])
    decreases |data| - p
  {
    if p < |data| {
      var rest := PagesFrom(data, NextPage(data, p));
      PagesFromAreTheSteps(data, NextPage(data, p));
      assert PagesFrom(data, p) == [p] + rest;
      forall i | 0 <= i < |rest|
        ensures PagesFrom(data, p)[i + 1] == rest[i]
      {
      }
    }
  }

  /** The serial of the page read at `q`. */
  function PageSerial(prefixes: seq<seq<byte>>, data: seq<byte>, q: nat): Option<seq<byte>>
  {
    SerialFrom(prefixes, Page(data, q), 0)
  }

  /** The first of `f(q)` that is present, for the positions `qs` in
      order. */
  function FirstPresent(f: nat -> Option<seq<byte>>, qs: seq<nat>): Option<seq<byte>>
  {
    if qs == [] then None
    else if f(qs[0]).Some? then f(qs[0]) else FirstPresent(f, qs[1..])
  }

  /** FirstPresent is None exactly when every `f(q)` is, and otherwise the
      value at the first position where one is present. */
  lemma {:induction false} FirstPresentIsFirst(f: nat -> Option<seq<byte>>, qs: seq<nat>)
    ensures FirstPresent(f, qs).None? <==> forall i :: 0 <= i < |qs| ==> f(qs[i]).None?
    ensures FirstPresent(f, qs).Some? ==>
      exists i :: 0 <= i < |qs| && f(qs[i]) == FirstPresent(f, qs) && forall j :: 0 <= j < i ==> f(qs[j]).None?
  {
    if qs != [] {
      var rest := qs[1..];
      FirstPresentIsFirst(f, rest);
      if f(qs[0]).None? {
        if FirstPresent(f, rest).Some? {
          var k :| 0 <= k < |rest| && f(rest[k]) == FirstPresent(f, rest) && forall j :: 0 <= j < k ==> f(rest[j]).None?;
          assert qs[k + 1] == rest[k];
          forall j | 0 <= j < k + 1
            ensures f(qs[j]).None?
          {
            if j > 0 {
              assert qs[j] == rest[j - 1];
            }
          }
        } else {
          forall i | 0 <= i < |qs|
            ensures f(qs[i]).None?
          {
            if i > 0 {
              assert qs[i] == rest[i - 1];
            }
          }
        }
      }
    }
  }

  /** The raw scan from `p` is the first serial present among the pages
      it reads. */
  lemma {:induction false} ScanPagesFromIsFirstPresent(prefixes: seq<seq<byte>>, data: seq<byte>, p: nat)
    ensures ScanPagesFrom(prefixes, data, p) == FirstPresent((q: nat) => PageSerial(prefixes, data, q), PagesFrom(data, p))
    decreases |data| - p
  {
    if p < |data| {
      var next := NextPage(data, p);
      ScanPagesFromIsFirstPresent(prefixes, data, next);
      assert PagesFrom(data, p)[1..] == PagesFrom(data, next);
    }
  }

  /** The raw scan finds nothing exactly when none of the pages it reads
      yields a serial, and otherwise its serial is that of the first page
      read that yields one. */
  lemma ScanPagesFromIsFirst(prefixes: seq<seq<byte>>, data: seq<byte>, p: nat)
    ensures var pages := PagesFrom(data, p);
      ScanPagesFrom(prefixes, data, p).None? <==>
        forall i :: 0 <= i < |pages| ==> PageSerial(prefixes, data, pages[i]).None?
    ensures var pages := PagesFrom(data, p);
      ScanPagesFrom(prefixes, data, p).Some? ==>
        exists i :: && 0 <= i < |pages|
                    && PageSerial(prefixes, data, pages[i]) == ScanPagesFrom(prefixes, data, p)
                    && forall j :: 0 <= j < i ==> PageSerial(prefixes, data, pages[j]).None?
  {
    var f := (q: nat) => PageSerial(prefixes, data, q);
    ScanPagesFromIsFirstPresent(prefixes, data, p);
    FirstPresentIsFirst(f, PagesFrom(data, p));
  }

  /** The page loop of `_find_in_binary`. */
  method FindInPages(prefixes: seq<seq<byte>>, data: seq<byte>) returns (r: Option<seq<byte>>)
    ensures r == ScanPagesFrom(prefixes, data, 0)
  {
    var p := 0;
    while p < |data|
      invariant ScanPagesFrom(prefixes, data, 0) == ScanPagesFrom(prefixes, data, p)
      decreases |data| - p
    {
      var page := Page(data, p);
      var pos := p + |page|;
      var useOffset := MaxPrefixLength < pos < |data|;
      var serial := SearchPrefixesIn(prefixes, page);
      if serial.Some? {
        return serial;
      }
      if useOffset {
        p := pos - MaxPrefixLength;
      } else {
        p := pos;
      }
    }
    return None;
  }

  method FindInBinary(data: seq<byte>) returns (r: Option<seq<byte>>)
    ensures r == BinarySerial(data)
  {
    r := FindInPages(Prefixes, data);
  }

  /** `bytes.upper`: ASCII letters only. */
  function Upper(b: byte): byte
  {
    if IsLower(b) then b - 0x20 else b
  }

  predicate IsLower(b: byte)
  {
    0x61 <= b <= 0x7A
  }

  predicate IsUpper(b: byte)
  {
    0x41 <= b <= 0x5A
  }

  function NormaliseByte(b: byte): seq<byte>
  {
    if Upper(b) == Dot then [] else if Upper(b) == Underscore then [Dash] else [Upper(b)]
  }

  /** The sanitised serial of an entry name: upper-cased, every `.` removed
      and every `_` turned into `-`. */
  function Normalise(s: seq<byte>): (r: seq<byte>)
    ensures forall k :: 0 <= k < |r| ==> r[k] != Dot && r[k] != Underscore && !IsLower(r[k])
  {
    if s == [] then [] else NormaliseByte(s[0]) + Normalise(s[1..])
  }

  /** A name with no lower-case letter, `.` or `_` is its own serial. */
  lemma {:induction false} NormaliseFixed(s: seq<byte>)
    requires forall k :: 0 <= k < |s| ==> s[k] != Dot && s[k] != Underscore && !IsLower(s[k])
    ensures Normalise(s) == s
  {
    if s != [] {
      NormaliseFixed(s[1..]);
      assert s == [s[0]] + s[1..];
    }
  }

  /** Normalising twice is normalising once. */
  lemma NormaliseIdempotent(s: seq<byte>)
    ensures Normalise(Normalise(s)) == Normalise(s)
  {
    NormaliseFixed(Normalise(s));
  }

  lemma {:induction false} NormaliseAppend(a: seq<byte>, b: seq<byte>)
    ensures Normalise(a + b) == Normalise(a) + Normalise(b)
  {
    if a == [] {
      assert a + b == b;
    } else {
      assert (a + b)[1..] == a[1..] + b;
      NormaliseAppend(a[1..], b);
    }
  }

  /** `serial_number.split(b'-')[0]`: the bytes before the first `-`. */
  function BeforeDash(s: seq<byte>): (r: seq<byte>)
    ensures |r| <= |s| && r == s[..|r|]
    ensures forall k :: 0 <= k < |r| ==> r[k] != Dash
    ensures |r| < |s| ==> s[|r|] == Dash
  {
    if s == [] || s[0] == Dash then [] else [s[0]] + BeforeDash(s[1..])
  }

  /** The prefix filter: the text before the first `-` is one of
      `prefixes`. */
  predicate HasPrefixIn(prefixes: seq<seq<byte>>, serial: seq<byte>)
  {
    BeforeDash(serial) in prefixes
  }


  /** The serial before a `-` is the text before it. */
  lemma BeforeDashOf(p: seq<byte>, rest: seq<byte>)
    requires forall k :: 0 <= k < |p| ==> p[k] != Dash
    ensures BeforeDash(p + [Dash] + rest) == p
  {
    var s := p + [Dash] + rest;
    var r := BeforeDash(s);
    assert s[|p|] == Dash;
    assert forall k :: 0 <= k < |p| ==> s[k] == p[k];
    assert |r| == |p|;
    assert r == s[..|p|] == p;
  }

  /** The `Sierra` entry of the whitelist never passes the prefix filter:
      the serial it is compared with has been upper-cased. */
  lemma MixedCasePrefixNeverPasses(entry: seq<byte>)
    ensures BeforeDash(Normalise(entry)) != Ascii("Sierra")
  {
    var n := Normalise(entry);
    var r := BeforeDash(n);
    if |r| == 6 {
      assert r[1] == n[1];
      assert !IsLower(r[1]);
      assert IsLower(Ascii("Sierra")[1]);
    }
  }

  predicate IsUpperWord(p: seq<byte>)
  {
    forall k :: 0 <= k < |p| ==> IsUpper(p[k])
  }

  lemma {:induction false} CleanFixed(s: seq<byte>)
    requires forall k :: 0 <= k < |s| ==> s[k] != Dot && s[k] != Semicolon && s[k] != Underscore
    ensures Clean(s) == s
  {
    if s != [] {
      CleanFixed(s[1..]);
      assert s == [s[0]] + s[1..];
    }
  }

  /** The digits and bars of a run of number bytes, with the dots gone. */
  lemma {:induction false} CleanNumbers(run: seq<byte>)
    requires forall k :: 0 <= k < |run| ==> IsNumberByte(run[k])
    ensures forall k :: 0 <= k < |Clean(run)| ==> IsDigit(Clean(run)[k]) || Clean(run)[k] == Bar
  {
    if run != [] {
      CleanNumbers(run[1..]);
    }
  }

  /** The number run of a token, between its separator and semicolon. */
  function Number(prefix: seq<byte>, t: seq<byte>): seq<byte>
    requires IsToken(prefix, t)
  {
    t[|prefix| + 1..|t| - 1]
  }

  /** A token splits into its prefix, separator, number run and semicolon. */
  lemma TokenParts(prefix: seq<byte>, t: seq<byte>)
    requires IsToken(prefix, t)
    ensures t == prefix + [t[|prefix|]] + Number(prefix, t) + [Semicolon]
    ensures forall k :: 0 <= k < |Number(prefix, t)| ==> IsNumberByte(Number(prefix, t)[k])
  {
    assert t == t[..|prefix|] + [t[|prefix|]] + t[|prefix| + 1..|t| - 1] + [t[|t| - 1]];
  }

  /** The cleaned token of an upper-case prefix is the prefix, a `-` or a
      `|` for the separator, and the digits and bars of the number. */
  lemma CleanToken(prefix: seq<byte>, t: seq<byte>)
    requires IsToken(prefix, t) && IsUpperWord(prefix)
    ensures var run := Clean(Number(prefix, t));
      && Clean(t) == prefix + [if t[|prefix|] == Bar then Bar else Dash] + run
      && forall k :: 0 <= k < |run| ==> IsDigit(run[k]) || run[k] == Bar
  {
    CleanTokenSplit(prefix, t);
    CleanFixed(prefix);
    assert Clean([t[|prefix|]]) == CleanByte(t[|prefix|]);
    CleanNumbers(Number(prefix, t));
  }

  /** Cleaning a token cleans its prefix, separator and number run apart,
      and drops its semicolon. */
  lemma CleanTokenSplit(prefix: seq<byte>, t: seq<byte>)
    requires IsToken(prefix, t)
    ensures Clean(t) == Clean(prefix) + Clean([t[|prefix|]]) + Clean(Number(prefix, t))
  {
    var run := Number(prefix, t);
    TokenParts(prefix, t);
    CleanAppend(prefix + [t[|prefix|]] + run, [Semicolon]);
    CleanAppend(prefix + [t[|prefix|]], run);
    CleanAppend(prefix, [t[|prefix|]]);
    assert Clean([Semicolon]) == [];
  }

  /** A raw-scan serial of an upper-case prefix with separator `_` or `-`
      sanitises back to a serial whose text before the first `-` is that
      prefix. */
  lemma BinarySerialPrefix(prefix: seq<byte>, t: seq<byte>)
    requires IsToken(prefix, t) && IsUpperWord(prefix) && t[|prefix|] != Bar
    ensures BeforeDash(Normalise(Clean(t))) == prefix
  {
    var run := Clean(Number(prefix, t));
    CleanToken(prefix, t);
    NormaliseAppend(prefix + [Dash], run);
    NormaliseAppend(prefix, [Dash]);
    NormaliseFixed(prefix);
    assert Normalise([Dash]) == [Dash];
    BeforeDashOf(prefix, Normalise(run));
  }

  /** The regions, in the order the tables are consulted. */
  datatype Region = Asia | Australia | Europe | Japan | Korea | USA

  /** The place of a region in the lookup order. */
  function Rank(region: Region): nat
  {
    match region
    case Asia => 0
    case Australia => 1
    case Europe => 2
    case Japan => 3
    case Korea => 4
    case USA => 5
  }

  /** The six title tables, by serial. */
  datatype Tables = Tables(
    asia: map<seq<byte>, string>,
    australia: map<seq<byte>, string>,
    europe: map<seq<byte>, string>,
    japan: map<seq<byte>, string>,
    korea: map<seq<byte>, string>,
    usa: map<seq<byte>, string>)

  function Table(tables: Tables, region: Region): map<seq<byte>, string>
  {
    match region
    case Asia => tables.asia
    case Australia => tables.australia
    case Europe => tables.europe
    case Japan => tables.japan
    case Korea => tables.korea
    case USA => tables.usa
  }

  /** The lookup chain: the region and title of the first table that holds
      the serial. */
  function Lookup(tables: Tables, serial: seq<byte>): (r: Option<(Region, string)>)
    ensures r.Some? ==> serial in Table(tables, r.value.0) && r.value.1 == Table(tables, r.value.0)[serial]
    ensures r.None? <==> forall region :: serial !in Table(tables, region)
  {
    if serial in tables.asia then Some((Asia, tables.asia[serial]))
    else if serial in tables.australia then Some((Australia, tables.australia[serial]))
    else if serial in tables.europe then Some((Europe, tables.europe[serial]))
    else if serial in tables.japan then Some((Japan, tables.japan[serial]))
    else if serial in tables.korea then Some((Korea, tables.korea[serial]))
    else if serial in tables.usa then Some((USA, tables.usa[serial]))
    else None
  }

  /** No table earlier in the order holds a serial the lookup places in a
      region. */
  lemma LookupIsFirst(tables: Tables, serial: seq<byte>)
    ensures Lookup(tables, serial).Some? ==>
      forall region :: Rank(region) < Rank(Lookup(tables, serial).value.0) ==> serial !in Table(tables, region)
  {
  }

  /** A serial without a `-` is its own text before the first `-`. */
  lemma {:induction false} BeforeDashNoDash(s: seq<byte>)
    requires forall k :: 0 <= k < |s| ==> s[k] != Dash
    ensures BeforeDash(s) == s
  {
    if s != [] {
      BeforeDashNoDash(s[1..]);
      assert s == [s[0]] + s[1..];
    }
  }

  lemma NoDashAppend(a: seq<byte>, b: seq<byte>)
    requires forall k :: 0 <= k < |a| ==> a[k] != Dash
    requires forall k :: 0 <= k < |b| ==> b[k] != Dash
    ensures forall k :: 0 <= k < |a + b| ==> (a + b)[k] != Dash
  {
    forall k | 0 <= k < |a + b|
      ensures (a + b)[k] != Dash
    {
      if k >= |a| {
        assert (a + b)[k] == b[k - |a|];
      }
    }
  }

  /** A raw-scan serial whose separator is `|` has no `-` at all, so the
      prefix filter compares the whole serial, `|` included, with the
      prefixes. */
  lemma BarSerialHasNoDash(prefix: seq<byte>, t: seq<byte>)
    requires IsToken(prefix, t) && IsUpperWord(prefix) && t[|prefix|] == Bar
    ensures var serial := Normalise(Clean(t));
      && BeforeDash(serial) == serial
      && |serial| > |prefix| && serial[|prefix|] == Bar
  {
    var run := Clean(Number(prefix, t));
    BarTokenSerial(prefix, t);
    UpperWordUnchanged(prefix);
    DigitsAndBarsUnchanged(run);
    NoDashAppend(prefix, [Bar]);
    NoDashAppend(prefix + [Bar], run);
    BeforeDashNoDash(prefix + [Bar] + run);
  }

  /** A raw-scan serial with separator `|` is the prefix, the `|` and the
      digits and bars of its number. */
  lemma BarTokenSerial(prefix: seq<byte>, t: seq<byte>)
    requires IsToken(prefix, t) && IsUpperWord(prefix) && t[|prefix|] == Bar
    ensures Normalise(Clean(t)) == prefix + [Bar] + Clean(Number(prefix, t))
    ensures forall k :: 0 <= k < |Clean(Number(prefix, t))| ==> IsDigit(Clean(Number(prefix, t))[k]) || Clean(Number(prefix, t))[k] == Bar
  {
    var run := Clean(Number(prefix, t));
    CleanToken(prefix, t);
    NormaliseAppend(prefix + [Bar], run);
    NormaliseAppend(prefix, [Bar]);
    UpperWordUnchanged(prefix);
    DigitsAndBarsUnchanged(run);
    assert Normalise([Bar]) == [Bar];
  }

  /** An upper-case word is its own serial and holds no `-`. */
  lemma UpperWordUnchanged(p: seq<byte>)
    requires IsUpperWord(p)
    ensures Normalise(p) == p
    ensures forall k :: 0 <= k < |p| ==> p[k] != Dash
  {
    NormaliseFixed(p);
  }

  /** A run of digits and bars is its own serial and holds no `-`. */
  lemma DigitsAndBarsUnchanged(run: seq<byte>)
    requires forall k :: 0 <= k < |run| ==> IsDigit(run[k]) || run[k] == Bar
    ensures Normalise(run) == run
    ensures forall k :: 0 <= k < |run| ==> run[k] != Dash
  {
    NormaliseFixed(run);
  }
}
