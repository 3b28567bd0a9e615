/**
 * `get_playstation2_game_info`: a disc image is accepted by the extension
 * of its name, its candidate names come from the first reader that
 * succeeds (the UDF root directory of a DVD, the ISO 9660 tree of a CD, or
 * the raw serial scan), and the first candidate whose sanitised serial has
 * a known prefix and a title in one of the region tables is the game.
 */
module Identification {
  import opened Wrappers
  import opened Bytes
  import opened Records
  import opened Mount
  import opened Serials

  /** Which reader supplied the candidate names. */
  datatype DiscType = DVD | CD | Binary

  /** The dictionary `get_playstation2_game_info` returns. */
  datatype GameInfo = GameInfo(serialNumber: seq<byte>, region: Region, title: string, discType: DiscType)

  /** The exceptions `get_playstation2_game_info` raises. */
  datatype Failure =
    | NotAnImage        // the name does not end in .iso or .bin
    | NoSerialInBinary  // the raw scan found nothing, and its None candidate cannot be upper-cased
    | NotInDatabase     // no candidate names a game in the tables

  /** `str.rfind` for one character: the last index of `c`, or -1. */
  function LastIndexOf(s: string, c: char): (r: int)
    ensures -1 <= r < |s|
    ensures r >= 0 ==> s[r] == c
    ensures forall k :: r < k < |s| ==> s[k] != c
  {
    if s == [] then -1
    else if s[|s| - 1] == c then |s| - 1
    else LastIndexOf(s[..|s| - 1], c)
  }

  /** `os.path.splitext(path)[1]` with `/` as the separator: from the last
      `.` of the last component on, unless that component is only dots up
      to it. */
  function Extension(path: string): (ext: string)
    ensures ext != [] ==>
      && |ext| <= |path| && ext == path[|path| - |ext|..]
      && ext[0] == '.'
      && forall k :: 1 <= k < |ext| ==> ext[k] != '.' && ext[k] != '/'
  {
    var sep := LastIndexOf(path, '/');
    var dot := LastIndexOf(path, '.');
    if dot > sep && exists k | sep + 1 <= k < dot :: path[k] != '.' then path[dot..] else []
  }

  /** The extension of a name whose stem ends in an ordinary character is
      the part from its last dot. */
  lemma ExtensionOfName(stem: string, ext: string)
    requires stem != [] && stem[|stem| - 1] != '.' && stem[|stem| - 1] != '/'
    requires ext != [] && ext[0] == '.'
    requires forall k :: 1 <= k < |ext| ==> ext[k] != '.' && ext[k] != '/'
    ensures Extension(stem + ext) == ext
  {
    var path := stem + ext;
    var dot := LastIndexOf(path, '.');
    var sep := LastIndexOf(path, '/');
    assert path[|stem|] == '.';
    assert dot == |stem|;
    assert path[|stem| - 1] == stem[|stem| - 1];
    assert sep < |stem| - 1;
    assert path[dot..] == ext;
  }

  /** `str.lower` on ASCII letters. */
  function LowerAscii(s: string): (r: string)
    ensures |r| == |s|
    ensures forall k :: 0 <= k < |s| ==> r[k] == if 'A' <= s[k] <= 'Z' then (s[k] as int + 32) as char else s[k]
  {
    if s == [] then [] else [if 'A' <= s[0] <= 'Z' then (s[0] as int + 32) as char else s[0]] + LowerAscii(s[1..])
  }

  /** The extension test that comes before any read. */
  predicate IsImageName(name: string)
  {
    LowerAscii(Extension(name)) in [".iso", ".bin"]
  }

  /** An `.iso` or `.bin` name, in any case, after an ordinary stem is
      accepted. */
  lemma ImageNamesAccepted(stem: string, ext: string)
    requires stem != [] && stem[|stem| - 1] != '.' && stem[|stem| - 1] != '/'
    requires LowerAscii(ext) in [".iso", ".bin"]
    ensures IsImageName(stem + ext)
  {
    assert |ext| == 4 && ext[0] == '.';
    ExtensionOfName(stem, ext);
  }

  /** `bytes(chr(n), 'utf-8')` for one code unit. */
  function Utf8Char(u: nat): (r: seq<byte>)
    ensures 1 <= |r| <= 4
  {
    if u < 0x80 then [u as byte]
    else if u < 0x800 then [(0xC0 + u / 0x40) as byte, (0x80 + u % 0x40) as byte]
    else if u < 0x10000 then [(0xE0 + u / 0x1000) as byte, (0x80 + (u / 0x40) % 0x40) as byte, (0x80 + u % 0x40) as byte]
    else [(0xF0 + (u / 0x40000) % 8) as byte, (0x80 + (u / 0x1000) % 0x40) as byte,
          (0x80 + (u / 0x40) % 0x40) as byte, (0x80 + u % 0x40) as byte]
  }

  /** The file identifier as the byte string `to_dchars` joins. */
  function Utf8(units: seq<nat>): seq<byte>
  {
    if units == [] then [] else Utf8Char(units[0]) + Utf8(units[1..])
  }

  /** An ASCII identifier is its own byte string. */
  lemma {:induction false} Utf8Ascii(units: seq<nat>)
    requires forall k :: 0 <= k < |units| ==> units[k] < 0x80
    ensures |Utf8(units)| == |units|
    ensures forall k :: 0 <= k < |units| ==> Utf8(units)[k] as int == units[k]
  {
    if units != [] {
      Utf8Ascii(units[1..]);
    }
  }

  /** Every byte of a character beyond ASCII has its top bit set, so such a
      character never adds a `.`, `_`, `-` or letter to a serial. */
  lemma Utf8CharHigh(u: nat)
    requires u >= 0x80
    ensures forall k :: 0 <= k < |Utf8Char(u)| ==> Utf8Char(u)[k] >= 0x80
  {
  }

  /** `lstrip('/')`: the name without its leading slashes. */
  function LStripSlash(name: seq<byte>): (r: seq<byte>)
    ensures |r| <= |name| && r == name[|name| - |r|..]
    ensures r == [] || r[0] != 0x2F
    ensures forall k :: 0 <= k < |name| - |r| ==> name[k] == 0x2F
  {
    if name != [] && name[0] == 0x2F then LStripSlash(name[1..]) else name
  }

  /** The candidates of a DVD: the identifiers of its root directory. */
  function DvdEntries(fids: seq<FileIdentifierDescriptor>): (r: seq<Option<seq<byte>>>)
    ensures |r| == |fids|
    ensures forall i :: 0 <= i < |fids| ==> r[i] == Some(Utf8(fids[i].fileIdentifier))
  {
    seq(|fids|, i requires 0 <= i < |fids| => Some(Utf8(fids[i].fileIdentifier)))
  }

  /** The candidates of a CD: the paths of its tree, without leading
      slashes. */
  function CdEntries(paths: seq<seq<byte>>): (r: seq<Option<seq<byte>>>)
    ensures |r| == |paths|
    ensures forall i :: 0 <= i < |paths| ==> r[i] == Some(LStripSlash(paths[i]))
  {
    seq(|paths|, i requires 0 <= i < |paths| => Some(LStripSlash(paths[i])))
  }

  /** The try blocks: the candidates of the first reader that succeeds,
      DVD, then CD, then the raw scan, whose result is the one candidate. */
  function Listing(dvd: Result<seq<FileIdentifierDescriptor>, Error>, cd: Option<seq<seq<byte>>>, binary: Option<seq<byte>>)
    : (seq<Option<seq<byte>>>, DiscType)
  {
    if dvd.Ok? then (DvdEntries(dvd.value), DVD)
    else if cd.Some? then (CdEntries(cd.value), CD)
    else ([binary], Binary)
  }

  /** A candidate names a game: its serial has a known prefix and a
      non-empty title in the first table that holds it. */
  predicate Qualifies(prefixes: seq<seq<byte>>, tables: Tables, entry: seq<byte>)
  {
    var serial := Normalise(entry);
    && HasPrefixIn(prefixes, serial)
    && Lookup(tables, serial).Some?
    && Lookup(tables, serial).value.1 != []
  }

  /** The game a qualifying candidate names. */
  function GameOf(tables: Tables, entry: seq<byte>, disc: DiscType): GameInfo
    requires Lookup(tables, Normalise(entry)).Some?
  {
    var serial := Normalise(entry);
    var hit := Lookup(tables, serial).value;
    GameInfo(serial, hit.0, hit.1, disc)
  }

  /** The candidate loop: the first qualifying candidate in listing order;
      a None candidate raises before any later one is looked at. */
  function FirstGame(prefixes: seq<seq<byte>>, entries: seq<Option<seq<byte>>>, disc: DiscType, tables: Tables): Result<GameInfo, Failure>
  {
    if entries == [] then Err(NotInDatabase)
    else match entries[0]
      case None => Err(NoSerialInBinary)
      case Some(entry) =>
        var serial := Normalise(entry);
        if !HasPrefixIn(prefixes, serial) then FirstGame(prefixes, entries[1..], disc, tables)
        else match Lookup(tables, serial)
          case None => FirstGame(prefixes, entries[1..], disc, tables)
          case Some(hit) =>
            if hit.1 == [] then FirstGame(prefixes, entries[1..], disc, tables)
            else Ok(GameInfo(serial, hit.0, hit.1, disc))
  }

  /** A candidate that cannot name a game: present and not qualifying. */
  predicate Passed(prefixes: seq<seq<byte>>, tables: Tables, entry: Option<seq<byte>>)
  {
    entry.Some? && !Qualifies(prefixes, tables, entry.value)
  }

  /** The game is that of the first qualifying candidate, and every earlier
      candidate was present and did not qualify. */
  lemma {:induction false} FirstGameIsFirst(prefixes: seq<seq<byte>>, entries: seq<Option<seq<byte>>>, disc: DiscType, tables: Tables)
    requires FirstGame(prefixes, entries, disc, tables).Ok?
    ensures exists k :: && 0 <= k < |entries| && entries[k].Some? && Qualifies(prefixes, tables, entries[k].value)
                        && FirstGame(prefixes, entries, disc, tables).value == GameOf(tables, entries[k].value, disc)
                        && forall j :: 0 <= j < k ==> Passed(prefixes, tables, entries[j])
  {
    if entries[0].Some? && Qualifies(prefixes, tables, entries[0].value) {
      assert FirstGame(prefixes, entries, disc, tables).value == GameOf(tables, entries[0].value, disc);
    } else {
      assert FirstGame(prefixes, entries, disc, tables) == FirstGame(prefixes, entries[1..], disc, tables);
      FirstGameIsFirst(prefixes, entries[1..], disc, tables);
      var k :| && 0 <= k < |entries[1..]| && entries[1..][k].Some? && Qualifies(prefixes, tables, entries[1..][k].value)
               && FirstGame(prefixes, entries[1..], disc, tables).value == GameOf(tables, entries[1..][k].value, disc)
               && forall j :: 0 <= j < k ==> Passed(prefixes, tables, entries[1..][j]);
      assert entries[k + 1] == entries[1..][k];
      forall j | 0 <= j < k + 1
        ensures Passed(prefixes, tables, entries[j])
      {
        if j > 0 {
          assert entries[j] == entries[1..][j - 1];
        }
      }
    }
  }

  /** The lookup fails exactly when every candidate is present and none
      qualifies. */
  lemma {:induction false} FirstGameNotInDatabase(prefixes: seq<seq<byte>>, entries: seq<Option<seq<byte>>>, disc: DiscType, tables: Tables)
    ensures FirstGame(prefixes, entries, disc, tables) == Err(NotInDatabase) <==> forall j :: 0 <= j < |entries| ==> Passed(prefixes, tables, entries[j])
  {
    if entries != [] {
      FirstGameNotInDatabase(prefixes, entries[1..], disc, tables);
      assert forall j :: 1 <= j < |entries| ==> entries[j] == entries[1..][j - 1];
    }
  }

  /** The result of `get_playstation2_game_info` from the three readers'
      results, with `prefixes` as the whitelist. */
  function GameInfoFrom(prefixes: seq<seq<byte>>, name: string, dvd: Result<seq<FileIdentifierDescriptor>, Error>, cd: Option<seq<seq<byte>>>,
                        binary: Option<seq<byte>>, tables: Tables): Result<GameInfo, Failure>
  {
    if !IsImageName(name) then Err(NotAnImage)
    else
      var listing := Listing(dvd, cd, binary);
      FirstGame(prefixes, listing.0, listing.1, tables)
  }

  /** `get_playstation2_game_info` for the image held in the named file;
      `cd` is the tree the ISO 9660 reader lists, None when it fails. */
  function PlayStation2GameInfo(name: string, image: seq<byte>, cd: Option<seq<seq<byte>>>, tables: Tables): Result<GameInfo, Failure>
  {
    GameInfoFrom(Prefixes, name, ReadUdf(image), cd, BinarySerial(image), tables)
  }

  /** The name is checked first, and only the name raises NotAnImage. */
  lemma NotAnImageOnlyByName(prefixes: seq<seq<byte>>, name: string, dvd: Result<seq<FileIdentifierDescriptor>, Error>, cd: Option<seq<seq<byte>>>,
                             binary: Option<seq<byte>>, tables: Tables)
    ensures GameInfoFrom(prefixes, name, dvd, cd, binary, tables) == Err(NotAnImage) <==> !IsImageName(name)
  {
    var listing := Listing(dvd, cd, binary);
    FirstGameNeverNotAnImage(prefixes, listing.0, listing.1, tables);
  }

  lemma {:induction false} FirstGameNeverNotAnImage(prefixes: seq<seq<byte>>, entries: seq<Option<seq<byte>>>, disc: DiscType, tables: Tables)
    ensures FirstGame(prefixes, entries, disc, tables) != Err(NotAnImage)
    ensures FirstGame(prefixes, entries, disc, tables).Ok? ==> FirstGame(prefixes, entries, disc, tables).value.discType == disc
  {
    if entries != [] {
      FirstGameNeverNotAnImage(prefixes, entries[1..], disc, tables);
    }
  }

  /** The disc type names the first reader that succeeded. */
  lemma DiscTypeIsFirstReader(prefixes: seq<seq<byte>>, name: string, dvd: Result<seq<FileIdentifierDescriptor>, Error>, cd: Option<seq<seq<byte>>>,
                              binary: Option<seq<byte>>, tables: Tables)
    requires GameInfoFrom(prefixes, name, dvd, cd, binary, tables).Ok?
    ensures var disc := GameInfoFrom(prefixes, name, dvd, cd, binary, tables).value.discType;
      && (disc == DVD <==> dvd.Ok?)
      && (disc == CD <==> dvd.Err? && cd.Some?)
      && (disc == Binary <==> dvd.Err? && cd.None?)
  {
    var listing := Listing(dvd, cd, binary);
    FirstGameNeverNotAnImage(prefixes, listing.0, listing.1, tables);
  }

  /** When no reader lists anything and the raw scan finds nothing, the
      None candidate raises. */
  lemma NothingFound(prefixes: seq<seq<byte>>, name: string, dvd: Result<seq<FileIdentifierDescriptor>, Error>, tables: Tables)
    requires IsImageName(name) && dvd.Err?
    ensures GameInfoFrom(prefixes, name, dvd, None, None, tables) == Err(NoSerialInBinary)
  {
  }

  /** The loop over the root directory's entries. */
  method CollectDvdEntries(fids: seq<FileIdentifierDescriptor>) returns (entries: seq<Option<seq<byte>>>)
    ensures entries == DvdEntries(fids)
  {
    entries := [];
    for i := 0 to |fids|
      invariant |entries| == i
      invariant forall k :: 0 <= k < i ==> entries[k] == Some(Utf8(fids[k].fileIdentifier))
    {
      entries := entries + [Some(Utf8(fids[i].fileIdentifier))];
    }
  }

  /** The loop over the CD's tree. */
  method CollectCdEntries(paths: seq<seq<byte>>) returns (entries: seq<Option<seq<byte>>>)
    ensures entries == CdEntries(paths)
  {
    entries := [];
    for i := 0 to |paths|
      invariant |entries| == i
      invariant forall k :: 0 <= k < i ==> entries[k] == Some(LStripSlash(paths[k]))
    {
      entries := entries + [Some(LStripSlash(paths[i]))];
    }
  }

  /** The candidate loop, returning at the first game. */
  method ChooseGame(prefixes: seq<seq<byte>>, entries: seq<Option<seq<byte>>>, disc: DiscType, tables: Tables)
    returns (r: Result<GameInfo, Failure>)
    ensures r == FirstGame(prefixes, entries, disc, tables)
  {
    for i := 0 to |entries|
      invariant FirstGame(prefixes, entries, disc, tables) == FirstGame(prefixes, entries[i..], disc, tables)
    {
      assert entries[i..][1..] == entries[i + 1..];
      if entries[i].None? {
        return Err(NoSerialInBinary);
      }
      var serial := Normalise(entries[i].value);
      if !HasPrefixIn(prefixes, serial) {
        continue;
      }
      var hit := Lookup(tables, serial);
      if hit.None? || hit.value.1 == [] {
        continue;
      }
      return Ok(GameInfo(serial, hit.value.0, hit.value.1, disc));
    }
    return Err(NotInDatabase);
  }

  /** The try blocks and the candidate loop, given what the DVD and CD
      readers returned and, when both failed, what the raw scan found. */
  method IdentifyFrom(prefixes: seq<seq<byte>>, name: string, dvd: Result<seq<FileIdentifierDescriptor>, Error>,
                      cd: Option<seq<seq<byte>>>, binary: Option<seq<byte>>, tables: Tables)
    returns (r: Result<GameInfo, Failure>)
    ensures r == GameInfoFrom(prefixes, name, dvd, cd, binary, tables)
  {
    if !IsImageName(name) {
      return Err(NotAnImage);
    }
    var entries: seq<Option<seq<byte>>> := [];
    var disc: Option<DiscType> := None;
    if dvd.Ok? {
      entries := CollectDvdEntries(dvd.value);
      disc := Some(DVD);
    }
    if disc.None? && cd.Some? {
      entries := CollectCdEntries(cd.value);
      disc := Some(CD);
    }
    if disc.None? {
      entries := [binary];
      disc := Some(Binary);
    }
    r := ChooseGame(prefixes, entries, disc.value, tables);
  }

  /** The raw scan is only run when neither the DVD nor the CD reader
      succeeded, and only then does its result matter. */
  lemma BinaryOnlyAsFallback(prefixes: seq<seq<byte>>, name: string, dvd: Result<seq<FileIdentifierDescriptor>, Error>,
                             cd: Option<seq<seq<byte>>>, binary: Option<seq<byte>>, other: Option<seq<byte>>, tables: Tables)
    requires dvd.Ok? || cd.Some?
    ensures GameInfoFrom(prefixes, name, dvd, cd, binary, tables) == GameInfoFrom(prefixes, name, dvd, cd, other, tables)
  {
  }

  /** The readers after the DVD reader, and the candidate loop. */
  method IdentifyImage(name: string, image: seq<byte>, dvd: Result<seq<FileIdentifierDescriptor>, Error>,
                       cd: Option<seq<seq<byte>>>, tables: Tables)
    returns (r: Result<GameInfo, Failure>)
    ensures r == GameInfoFrom(Prefixes, name, dvd, cd, BinarySerial(image), tables)
  {
    var binary: Option<seq<byte>> := None;
    if dvd.Err? && cd.None? {
      binary := FindInBinary(image);
    } else {
      BinaryOnlyAsFallback(Prefixes, name, dvd, cd, binary, BinarySerial(image), tables);
    }
    r := IdentifyFrom(Prefixes, name, dvd, cd, binary, tables);
  }

  /** `get_playstation2_game_info` on the named file's bytes. */
  method GetPlayStation2GameInfo(name: string, image: seq<byte>, cd: Option<seq<seq<byte>>>, tables: Tables)
    returns (r: Result<GameInfo, Failure>)
    ensures r == PlayStation2GameInfo(name, image, cd, tables)
  {
    if !IsImageName(name) {
      return Err(NotAnImage);
    }
    var dvd := ReadUdfFile(image);
    r := IdentifyImage(name, image, dvd, cd, tables);
  }
}
