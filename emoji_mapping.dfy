/**
 * scripts/generate_emoji_mapping.py: the Twemoji filename parser
 * `parse_twemoji_filename` and the loop of `generate_mapping` that turns a
 * directory listing into a table from emoji string to filename.
 *
 * The listing is an input sequence in whatever order the file system gave
 * it, and whether the directory exists is an input flag. A Python `str` is a
 * sequence of code points 0..0x10FFFF, so an emoji key is a sequence of
 * `CodePoint`s; `''.join(chr(cp) for cp in codepoints)` is the identity on
 * code points in that range and raises (`ValueError`, or `OverflowError`
 * beyond a C `int`) outside it.
 */
module EmojiMapping {
  import opened Wrappers
  import opened PyStr
  import opened Hex

  /** The image extension, compared case-sensitively. */
  const PngSuffix: string := ".png"
  /** The separator between code points in a filename. */
  const Separator: char := '-'
  /** The largest argument `chr` accepts. */
  const MaxCodePoint: nat := 0x10FFFF

  type CodePoint = n: nat | n <= 0x10FFFF

  /** A Python `str` built by `chr`: one code point per character. */
  type EmojiKey = seq<CodePoint>

  /** How a run of `generate_mapping` ends. */
  datatype Outcome =
    | NoDirectory                                      // the directory does not exist: returns None
    | ChrOutOfRange(filename: string, codepoint: int)  // chr(codepoint) raised an exception
    | Mapped(mapping: map<EmojiKey, string>)           // the finished table

  // ---------------------------------------------------------------------------
  // parse_twemoji_filename
  // ---------------------------------------------------------------------------

  /** The dash-separated segments of the name with `.png` stripped. */
  function Segments(filename: string): (parts: seq<string>)
    requires EndsWith(filename, PngSuffix)
  {
    Split(filename[..|filename| - |PngSuffix|], Separator)
  }

  /** What one segment contributes: its value if it parses, nothing otherwise. */
  function SegmentCodePoints(part: string): (values: seq<int>)
  {
    match ParseHex(part)
    case Some(v) => [v]
    case None => []
  }

  /** The code points of the segments that parse, left to right. */
  function ParseSegments(parts: seq<string>): (values: seq<int>)
  {
    if |parts| == 0 then []
    else ParseSegments(parts[..|parts| - 1]) + SegmentCodePoints(parts[|parts| - 1])
  }

  /** The parser's result: `None` for a non-`.png` name or when no segment parsed. */
  function ParseFilename(filename: string): (r: Option<seq<int>>)
  {
    if !EndsWith(filename, PngSuffix) then None
    else
      var codepoints := ParseSegments(Segments(filename));
      if |codepoints| == 0 then None else Some(codepoints)
  }

  /** parse_twemoji_filename: the loop over the segments that appends each parsed value. */
  method ParseTwemojiFilename(filename: string) returns (codepoints: Option<seq<int>>)
    ensures codepoints == ParseFilename(filename)
  {
    if !EndsWith(filename, PngSuffix) {
      return None;
    }
    var basename := filename[..|filename| - |PngSuffix|];
    var parts := Split(basename, Separator);
    var parsed: seq<int> := [];
    for i := 0 to |parts|
      invariant parsed == ParseSegments(parts[..i])
    {
      assert parts[..i + 1][..i] == parts[..i];
      var value := ParseHex(parts[i]);
      if value.Some? {
        parsed := parsed + [value.value];
      }
    }
    assert parts[..|parts|] == parts;
    if |parsed| == 0 {
      return None;
    }
    return Some(parsed);
  }

  // ---------------------------------------------------------------------------
  // ''.join(chr(cp) for cp in codepoints)
  // ---------------------------------------------------------------------------

  /** The arguments `chr` accepts. */
  predicate InChrRange(cp: int)
  {
    0 <= cp <= MaxCodePoint
  }

  /**
   * The emoji string of a code point list, or the first code point `chr`
   * refuses. On success the string has exactly the given code points.
   */
  function ToKey(codepoints: seq<int>): (r: Result<EmojiKey, int>)
    ensures r.Success? <==> forall i :: 0 <= i < |codepoints| ==> InChrRange(codepoints[i])
    ensures r.Success? ==> r.value == codepoints
    ensures r.Failure? ==> exists i :: 0 <= i < |codepoints| && codepoints[i] == r.error &&
                                       !InChrRange(r.error) &&
                                       forall j :: 0 <= j < i ==> InChrRange(codepoints[j])
  {
    if |codepoints| == 0 then Success([])
    else if !InChrRange(codepoints[0]) then Failure(codepoints[0])
    else
      match ToKey(codepoints[1..])
      case Failure(cp) => Failure(cp)
      case Success(rest) => Success([codepoints[0] as CodePoint] + rest)
  }

  // ---------------------------------------------------------------------------
  // The mapping loop of generate_mapping
  // ---------------------------------------------------------------------------

  /**
   * One iteration of the loop: skip a name that does not parse, raise for
   * one `chr` refuses, otherwise write the name under its code points and
   * leave every other entry as it was.
   */
  function Insert(mapping: map<EmojiKey, string>, filename: string): (r: Outcome)
    ensures !r.NoDirectory?
    ensures ParseFilename(filename) == None ==> r == Mapped(mapping)
    ensures r.ChrOutOfRange? <==> ParseFilename(filename).Some? && ToKey(ParseFilename(filename).value).Failure?
    ensures r.ChrOutOfRange? ==> r.filename == filename
    ensures r.Mapped? && ParseFilename(filename).Some? ==>
              var key := ParseFilename(filename).value;
              key in r.mapping && r.mapping[key] == filename &&
              r.mapping.Keys == mapping.Keys + {key} &&
              forall k :: k in mapping && k != key ==> r.mapping[k] == mapping[k]
  {
    if !EndsWith(filename, PngSuffix) then Mapped(mapping)
    else
      match ParseFilename(filename)
      case None => Mapped(mapping)
      case Some(codepoints) =>
        match ToKey(codepoints)
        case Failure(cp) => ChrOutOfRange(filename, cp)
        case Success(key) => Mapped(mapping[key := filename])
  }

  /** The loop over a listing, from an empty table; the first exception `chr` raises
   * (`ValueError`, or `OverflowError` beyond a C `int`) ends it. */
  function Scan(listing: seq<string>): (r: Outcome)
  {
    if |listing| == 0 then Mapped(map[])
    else
      match Scan(listing[..|listing| - 1])
      case Mapped(mapping) => Insert(mapping, listing[|listing| - 1])
      case stopped => stopped
  }

  /** generate_mapping without its I/O. */
  function Generate(dirExists: bool, listing: seq<string>): (r: Outcome)
  {
    if !dirExists then NoDirectory else Scan(listing)
  }

  /** generate_mapping: the existence check and the loop that fills the dictionary. */
  method GenerateMapping(dirExists: bool, listing: seq<string>) returns (result: Outcome)
    ensures result == Generate(dirExists, listing)
  {
    if !dirExists {
      return NoDirectory;
    }
    var mapping: map<EmojiKey, string> := map[];
    for i := 0 to |listing|
      invariant Scan(listing[..i]) == Mapped(mapping)
    {
      assert listing[..i + 1][..i] == listing[..i];
      var filename := listing[i];
      if !EndsWith(filename, PngSuffix) {
        continue;
      }
      var codepoints := ParseTwemojiFilename(filename);
      if codepoints.Some? {
        var key := ToKey(codepoints.value);
        if key.Failure? {
          ScanStopsAt(listing, i + 1);
          return ChrOutOfRange(filename, key.error);
        }
        mapping := mapping[key.value := filename];
      }
    }
    assert listing[..|listing|] == listing;
    return Mapped(mapping);
  }

  /** Once the loop has raised, later files are never looked at. */
  lemma {:induction false} ScanStopsAt(listing: seq<string>, n: nat)
    requires n <= |listing|
    requires !Scan(listing[..n]).Mapped?
    ensures Scan(listing) == Scan(listing[..n])
  {
    if n < |listing| {
      var prefix := listing[..|listing| - 1];
      assert prefix[..n] == listing[..n];
      ScanStopsAt(prefix, n);
    } else {
      assert listing[..n] == listing;
    }
  }

  // ---------------------------------------------------------------------------
  // Properties of the parser
  // ---------------------------------------------------------------------------

  /** Segments are handled independently: the result for a concatenation is the concatenation. */
  lemma {:induction false} ParseSegmentsAppend(a: seq<string>, b: seq<string>)
    ensures ParseSegments(a + b) == ParseSegments(a) + ParseSegments(b)
  {
    if |b| > 0 {
      var b' := b[..|b| - 1];
      assert (a + b)[..|a + b| - 1] == a + b';
      assert (a + b)[|a + b| - 1] == b[|b| - 1];
      ParseSegmentsAppend(a, b');
    } else {
      assert a + b == a;
    }
  }

  /** An unparseable segment is dropped without disturbing its neighbours. */
  lemma DropUnparseable(a: seq<string>, bad: string, b: seq<string>)
    requires ParseHex(bad) == None
    ensures ParseSegments(a + [bad] + b) == ParseSegments(a + b)
  {
    ParseSegmentsAppend(a + [bad], b);
    ParseSegmentsAppend(a, b);
    assert ParseSegments(a + [bad]) == ParseSegments(a) by {
      assert (a + [bad])[..|a|] == a;
    }
  }

  /** A value is in the result exactly when some segment parses to it. */
  lemma {:induction false} ParseSegmentsMembers(parts: seq<string>, x: int)
    ensures x in ParseSegments(parts) <==> exists p :: p in parts && ParseHex(p) == Some(x)
  {
    if |parts| > 0 {
      var init := parts[..|parts| - 1];
      var last := parts[|parts| - 1];
      ParseSegmentsMembers(init, x);
      assert parts == init + [last];
      if exists p :: p in parts && ParseHex(p) == Some(x) {
        var p :| p in parts && ParseHex(p) == Some(x);
        if p != last {
          assert p in init;
        }
      }
    }
  }

  /** Nothing parses exactly when every segment is invalid. */
  lemma {:induction false} ParseSegmentsEmpty(parts: seq<string>)
    ensures ParseSegments(parts) == [] <==> forall i :: 0 <= i < |parts| ==> ParseHex(parts[i]) == None
  {
    if |parts| > 0 {
      var init := parts[..|parts| - 1];
      ParseSegmentsEmpty(init);
      assert forall i :: 0 <= i < |init| ==> init[i] == parts[i];
    }
  }

  /**
   * One code point per parseable segment: at most one per segment, and one
   * per segment, in segment order, when every segment parses.
   */
  lemma {:induction false} ParseSegmentsLength(parts: seq<string>)
    ensures |ParseSegments(parts)| <= |parts|
    ensures (forall i :: 0 <= i < |parts| ==> ParseHex(parts[i]).Some?) ==>
              |ParseSegments(parts)| == |parts| &&
              forall i :: 0 <= i < |parts| ==> ParseHex(parts[i]) == Some(ParseSegments(parts)[i])
  {
    if |parts| > 0 {
      var init := parts[..|parts| - 1];
      ParseSegmentsLength(init);
      assert forall i :: 0 <= i < |init| ==> init[i] == parts[i];
    }
  }

  /**
   * `None` exactly for a name without the `.png` suffix or with no segment
   * that parses; otherwise a non-empty list of the parsed segments' values.
   */
  lemma ParseFilenameNone(filename: string)
    ensures ParseFilename(filename) == None <==>
              !EndsWith(filename, PngSuffix) ||
              forall i :: 0 <= i < |Segments(filename)| ==> ParseHex(Segments(filename)[i]) == None
    ensures ParseFilename(filename).Some? ==>
              EndsWith(filename, PngSuffix) && |ParseFilename(filename).value| > 0 &&
              forall x :: x in ParseFilename(filename).value <==>
                            exists p :: p in Segments(filename) && ParseHex(p) == Some(x)
  {
    if EndsWith(filename, PngSuffix) {
      ParseSegmentsEmpty(Segments(filename));
      forall x {
        ParseSegmentsMembers(Segments(filename), x);
      }
    }
  }

  /** The segments of a name written as pieces joined by `-` are those pieces. */
  lemma SegmentsOfJoin(filename: string, parts: seq<string>)
    requires |parts| >= 1
    requires forall p :: p in parts ==> Separator !in p
    requires filename == Join(parts, Separator) + PngSuffix
    ensures EndsWith(filename, PngSuffix) && Segments(filename) == parts
  {
    var joined := Join(parts, Separator);
    assert filename[|filename| - |PngSuffix|..] == PngSuffix;
    assert filename[..|filename| - |PngSuffix|] == joined;
    SplitJoin(parts, Separator);
  }

  /** A run of hex digits holds no separator. */
  lemma HexHasNoSeparator(p: string)
    requires IsHexString(p)
    ensures Separator !in p
  {
  }

  /**
   * Every name `<hex>(-<hex>)*.png`, in any case and with any leading zeros,
   * parses to the values of its pieces, in order.
   */
  lemma ParseJoinedPieces(pieces: seq<string>)
    requires |pieces| > 0
    requires forall i :: 0 <= i < |pieces| ==> IsHexString(pieces[i])
    ensures ParseFilename(Join(pieces, Separator) + PngSuffix) ==
              Some(seq(|pieces|, i requires 0 <= i < |pieces| && IsHexString(pieces[i]) => Value(pieces[i]) as int))
  {
    forall p | p in pieces ensures Separator !in p {
      var i :| 0 <= i < |pieces| && pieces[i] == p;
      HexHasNoSeparator(p);
    }
    SegmentsOfJoin(Join(pieces, Separator) + PngSuffix, pieces);
    ParseSegmentsLength(pieces);
    var values := ParseSegments(pieces);
    assert values == seq(|pieces|, i requires 0 <= i < |pieces| && IsHexString(pieces[i]) => Value(pieces[i]) as int);
  }

  /** The name the convention gives a code point list: lower-case hex joined by `-`, then `.png`. */
  function FormatFilename(codepoints: seq<nat>): (filename: string)
    requires |codepoints| > 0
  {
    Join(seq(|codepoints|, i requires 0 <= i < |codepoints| => ToHex(codepoints[i])), Separator) + PngSuffix
  }

  /** Parsing a conventionally written name gives back its code points. */
  lemma ParseFormatFilename(codepoints: seq<nat>)
    requires |codepoints| > 0
    ensures ParseFilename(FormatFilename(codepoints)) == Some(codepoints)
  {
    var pieces := seq(|codepoints|, i requires 0 <= i < |codepoints| => ToHex(codepoints[i]));
    ParseJoinedPieces(pieces);
    assert seq(|pieces|, i requires 0 <= i < |pieces| && IsHexString(pieces[i]) => Value(pieces[i]) as int) == codepoints;
  }

  /** "1f600" is the hex of U+1F600. */
  lemma SmileValue()
    ensures ParseHex("1f600") == Some(0x1f600)
  {
    assert HexDigit(0) == '0' && HexDigit(6) == '6' && HexDigit(15) == 'f' && HexDigit(1) == '1';
    assert ToHex(0x1f) == "1f";
    assert ToHex(0x1f6) == "1f6";
    assert ToHex(0x1f60) == "1f60";
    assert ToHex(0x1f600) == "1f600";
  }

  /** The first example of the docstring: one code point. */
  lemma SingleCodePointExample()
    ensures ParseFilename("1f600.png") == Some([0x1f600])
  {
    SmileValue();
    SegmentsOfJoin("1f600.png", ["1f600"]);
    assert ["1f600"][..0] == [];
    assert SegmentCodePoints("1f600") == [0x1f600];
    assert ParseSegments(["1f600"]) == [0x1f600];
  }

  /** The values of the three segments of the keycap example; `fe0f` is valid hex. */
  lemma KeycapSegmentValues()
    ensures ParseHex("0023") == Some(0x23)
    ensures ParseHex("fe0f") == Some(0xfe0f)
    ensures ParseHex("20e3") == Some(0x20e3)
  {
    assert HexDigit(0) == '0' && HexDigit(2) == '2' && HexDigit(3) == '3';
    assert HexDigit(14) == 'e' && HexDigit(15) == 'f';
    assert ToHex(0x23) == "23";
    LeadingZeros("00", "23");
    assert "00" + "23" == "0023";
    assert ToHex(0xfe) == "fe";
    assert ToHex(0xfe0) == "fe0";
    assert ToHex(0xfe0f) == "fe0f";
    assert ToHex(0x20) == "20";
    assert ToHex(0x20e) == "20e";
    assert ToHex(0x20e3) == "20e3";
  }

  /** The second example of the docstring: a keycap sequence, every segment kept. */
  lemma KeycapExample()
    ensures ParseFilename("0023-fe0f-20e3.png") == Some([0x23, 0xfe0f, 0x20e3])
  {
    KeycapSegmentValues();
    var parts := ["0023", "fe0f", "20e3"];
    SegmentsOfJoin("0023-fe0f-20e3.png", parts);
    ParseSegmentsLength(parts);
    var r := ParseSegments(parts);
    assert |r| == 3 && r[0] == 0x23 && r[1] == 0xfe0f && r[2] == 0x20e3;
    assert r == [0x23, 0xfe0f, 0x20e3];
  }

  /** A suffix other than exactly `.png` gives `None`. */
  lemma SuffixExamples()
    ensures ParseFilename("readme.txt") == None
    ensures ParseFilename("1F600.PNG") == None
  {
  }

  /** A bare `.png` has one empty segment and gives `None`. */
  lemma BareSuffixExample()
    ensures EndsWith(".png", PngSuffix) && Segments(".png") == [""]
    ensures ParseFilename(".png") == None
  {
    SegmentsOfJoin(".png", [""]);
  }

  /** Segments that are not hex are all dropped, leaving `None`. */
  lemma NonHexExample()
    ensures ParseFilename("zz-yy.png") == None
  {
    var parts := ["zz", "yy"];
    SegmentsOfJoin("zz-yy.png", parts);
    assert ParseHex("zz") == None by { assert !IsHexDigit("zz"[0]); }
    assert ParseHex("yy") == None by { assert !IsHexDigit("yy"[0]); }
    ParseSegmentsEmpty(parts);
  }

  /** Only separators: three empty segments, so `None`. */
  lemma OnlySeparatorsExample()
    ensures ParseFilename("--.png") == None
  {
    var parts := ["", "", ""];
    SegmentsOfJoin("--.png", parts);
    ParseSegmentsEmpty(parts);
  }

  /** Empty segments are dropped and the rest kept: "a--.png" gives [0xa]. */
  lemma EmptySegmentExample()
    ensures ParseFilename("a--.png") == Some([0xa])
  {
    var a := ["a", "", ""];
    SegmentsOfJoin("a--.png", a);
    DropUnparseable(["a"], "", [""]);
    DropUnparseable(["a"], "", []);
    assert ["a"] + [""] + [""] == a;
    assert ["a"] + [""] + [] == ["a", ""];
    assert ["a"][..0] == [];
    assert ParseHex("a") == Some(0xa) by {
      assert "a"[..0] == "";
    }
    assert ParseSegments(["a"]) == [0xa];
  }

  // ---------------------------------------------------------------------------
  // Properties of the mapping loop
  // ---------------------------------------------------------------------------

  /** The file names whose code points make `chr` raise. */
  predicate RaisesInChr(filename: string)
  {
    ParseFilename(filename).Some? && ToKey(ParseFilename(filename).value).Failure?
  }

  /**
   * Parsed code points are never negative: the pieces of a split on `-`
   * hold no `-`, and without one `int(_, 16)` gives no negative value.
   */
  lemma ParsedCodePointsNonNegative(filename: string)
    requires ParseFilename(filename).Some?
    ensures forall x :: x in ParseFilename(filename).value ==> x >= 0
  {
    ParseFilenameNone(filename);
    forall x | x in ParseFilename(filename).value ensures x >= 0 {
      var p :| p in Segments(filename) && ParseHex(p) == Some(x);
      assert Separator !in p;
    }
  }

  /** So `chr` only ever refuses a parsed code point for being above 0x10FFFF. */
  lemma RaisesOnlyAboveMax(filename: string)
    requires RaisesInChr(filename)
    ensures ToKey(ParseFilename(filename).value).error > MaxCodePoint
  {
    var cps := ParseFilename(filename).value;
    ParsedCodePointsNonNegative(filename);
    var i :| 0 <= i < |cps| && cps[i] == ToKey(cps).error && !InChrRange(cps[i]);
    assert cps[i] in cps;
  }

  /** The `.png` names of a listing, in listing order. */
  function PngOnly(listing: seq<string>): (pngs: seq<string>)
  {
    if |listing| == 0 then []
    else
      var last := listing[|listing| - 1];
      PngOnly(listing[..|listing| - 1]) + if EndsWith(last, PngSuffix) then [last] else []
  }

  /**
   * One iteration leaves the table alone for a name that does not parse, and
   * otherwise writes the name under its code points, which are then the key.
   */
  lemma InsertEffect(mapping: map<EmojiKey, string>, filename: string)
    requires Insert(mapping, filename).Mapped?
    ensures ParseFilename(filename) == None ==> Insert(mapping, filename).mapping == mapping
    ensures ParseFilename(filename).Some? ==>
              !RaisesInChr(filename) &&
              ToKey(ParseFilename(filename).value) == Success(ParseFilename(filename).value) &&
              Insert(mapping, filename).mapping == mapping[ToKey(ParseFilename(filename).value).value := filename]
  {
  }

  /** A listing whose loop completes has a prefix whose loop completes. */
  lemma {:induction false} ScanPrefixMapped(listing: seq<string>, n: nat)
    requires n <= |listing|
    requires Scan(listing).Mapped?
    ensures Scan(listing[..n]).Mapped?
  {
    if !Scan(listing[..n]).Mapped? {
      ScanStopsAt(listing, n);
    }
  }

  /** The loop completes exactly when no `.png` name has a code point `chr` refuses. */
  lemma {:induction false} ScanMappedIff(listing: seq<string>)
    ensures !Scan(listing).NoDirectory?
    ensures Scan(listing).Mapped? <==> forall i :: 0 <= i < |listing| ==> !RaisesInChr(listing[i])
  {
    if |listing| > 0 {
      var init := listing[..|listing| - 1];
      var last := listing[|listing| - 1];
      ScanMappedIff(init);
      assert listing == init + [last];
      if Scan(init).Mapped? {
        InsertRaises(Scan(init).mapping, last);
      }
    }
  }

  /** One iteration raises exactly for a name whose code points `chr` refuses. */
  lemma InsertRaises(mapping: map<EmojiKey, string>, filename: string)
    ensures !Insert(mapping, filename).NoDirectory?
    ensures Insert(mapping, filename).Mapped? <==> !RaisesInChr(filename)
  {
  }

  /** The exception names the first offending file and its first offending code point. */
  lemma {:induction false} ScanRaisesAtFirst(listing: seq<string>, i: nat)
    requires i < |listing| && RaisesInChr(listing[i])
    requires forall j :: 0 <= j < i ==> !RaisesInChr(listing[j])
    ensures Scan(listing) == ChrOutOfRange(listing[i], ToKey(ParseFilename(listing[i]).value).error)
  {
    var prefix := listing[..i + 1];
    assert prefix[..i] == listing[..i];
    ScanMappedIff(listing[..i]);
    assert Scan(listing[..i]).Mapped?;
    assert Scan(prefix) == ChrOutOfRange(listing[i], ToKey(ParseFilename(listing[i]).value).error);
    ScanStopsAt(listing, i + 1);
  }

  /** Every entry of the table is a `.png` name of the listing stored under its own code points. */
  lemma {:induction false} ScanSound(listing: seq<string>)
    requires Scan(listing).Mapped?
    ensures forall key :: key in Scan(listing).mapping ==>
              var filename := Scan(listing).mapping[key];
              filename in listing && EndsWith(filename, PngSuffix) && ParseFilename(filename) == Some(key)
  {
    if |listing| > 0 {
      var init := listing[..|listing| - 1];
      var last := listing[|listing| - 1];
      ScanPrefixMapped(listing, |listing| - 1);
      ScanSound(init);
      InsertEffect(Scan(init).mapping, last);
      forall f | f in init ensures f in listing {
        var k :| 0 <= k < |init| && init[k] == f;
        assert listing[k] == f;
      }
    }
  }

  /**
   * Last write wins: a name that parses is in the table under its code points
   * unless a later name has the same code points, and then the table holds it.
   */
  lemma {:induction false} ScanLastWins(listing: seq<string>, i: nat)
    requires Scan(listing).Mapped?
    requires i < |listing| && ParseFilename(listing[i]).Some?
    requires forall j :: i < j < |listing| ==> ParseFilename(listing[j]) != ParseFilename(listing[i])
    ensures ParseFilename(listing[i]).value in Scan(listing).mapping
    ensures Scan(listing).mapping[ParseFilename(listing[i]).value] == listing[i]
  {
    var init := listing[..|listing| - 1];
    var last := listing[|listing| - 1];
    ScanPrefixMapped(listing, |listing| - 1);
    InsertEffect(Scan(init).mapping, last);
    if i < |listing| - 1 {
      ScanLastWins(init, i);
    }
  }

  /** A name that parses leaves its code points as a key of the table. */
  lemma ScanComplete(listing: seq<string>, i: nat)
    requires Scan(listing).Mapped?
    requires i < |listing| && ParseFilename(listing[i]).Some?
    ensures ParseFilename(listing[i]).value in Scan(listing).mapping
  {
    var cps := ParseFilename(listing[i]).value;
    var last :| i <= last < |listing| && ParseFilename(listing[last]) == Some(cps) &&
                forall j :: last < j < |listing| ==> ParseFilename(listing[j]) != Some(cps)
      by { LastOccurrence(listing, i); }
    ScanLastWins(listing, last);
  }

  /** Some name at or after `i` is the last one with the same parse. */
  lemma {:induction false} LastOccurrence(listing: seq<string>, i: nat)
    requires i < |listing|
    ensures exists last :: i <= last < |listing| && ParseFilename(listing[last]) == ParseFilename(listing[i]) &&
              forall j :: last < j < |listing| ==> ParseFilename(listing[j]) != ParseFilename(listing[i])
    decreases |listing| - i
  {
    if exists j :: i < j < |listing| && ParseFilename(listing[j]) == ParseFilename(listing[i]) {
      var j :| i < j < |listing| && ParseFilename(listing[j]) == ParseFilename(listing[i]);
      LastOccurrence(listing, j);
    } else {
      var last := i;
      assert i <= last < |listing| && ParseFilename(listing[last]) == ParseFilename(listing[i]);
      assert forall j :: last < j < |listing| ==> ParseFilename(listing[j]) != ParseFilename(listing[i]);
    }
  }

  /** The table has at most one entry per `.png` name of the listing. */
  lemma {:induction false} ScanSize(listing: seq<string>)
    requires Scan(listing).Mapped?
    ensures |Scan(listing).mapping| <= |PngOnly(listing)|
  {
    if |listing| > 0 {
      var init := listing[..|listing| - 1];
      var last := listing[|listing| - 1];
      ScanPrefixMapped(listing, |listing| - 1);
      ScanSize(init);
      InsertEffect(Scan(init).mapping, last);
    }
  }

  /** The table is empty exactly when no name of the listing parses. */
  lemma ScanEmpty(listing: seq<string>)
    ensures Scan(listing) == Mapped(map[]) <==>
              forall i :: 0 <= i < |listing| ==> ParseFilename(listing[i]) == None
  {
    if forall i :: 0 <= i < |listing| ==> ParseFilename(listing[i]) == None {
      ScanMappedIff(listing);
      ScanSound(listing);
    }
    if Scan(listing) == Mapped(map[]) {
      forall i | 0 <= i < |listing| ensures ParseFilename(listing[i]) == None {
        if ParseFilename(listing[i]).Some? {
          ScanComplete(listing, i);
        }
      }
    }
  }

  /** Names without the `.png` suffix do not affect the outcome. */
  lemma {:induction false} ScanIgnoresNonPng(listing: seq<string>)
    ensures Scan(listing) == Scan(PngOnly(listing))
  {
    if |listing| > 0 {
      var init := listing[..|listing| - 1];
      var last := listing[|listing| - 1];
      ScanIgnoresNonPng(init);
      var filtered := PngOnly(init);
      if EndsWith(last, PngSuffix) {
        assert PngOnly(listing) == filtered + [last];
        assert (filtered + [last])[..|filtered|] == filtered;
      } else {
        assert PngOnly(listing) == filtered;
      }
    }
  }

  /** With the directory missing nothing is scanned. */
  lemma GenerateMissing(listing: seq<string>)
    ensures Generate(false, listing) == NoDirectory
    ensures Generate(true, listing) != NoDirectory
  {
    ScanMappedIff(listing);
  }

  /** The loop over a listing extended by one name runs one more iteration. */
  lemma ScanSnoc(listing: seq<string>, filename: string)
    ensures Scan(listing + [filename]) ==
              if Scan(listing).Mapped? then Insert(Scan(listing).mapping, filename) else Scan(listing)
  {
  }

  /** A name whose code points `chr` accepts is written under them. */
  lemma InsertParsed(mapping: map<EmojiKey, string>, filename: string, key: EmojiKey)
    requires ParseFilename(filename) == Some(key)
    ensures Insert(mapping, filename) == Mapped(mapping[key := filename])
  {
  }

  /** Two images with different code points and one other file give exactly the two entries. */
  lemma TwoImagesAndOther(first: string, second: string, other: string, k1: EmojiKey, k2: EmojiKey)
    requires ParseFilename(first) == Some(k1) && ParseFilename(second) == Some(k2) && k1 != k2
    requires !EndsWith(other, PngSuffix)
    ensures Scan([first, second, other]) == Mapped(map[k1 := first, k2 := second])
  {
    ScanSnoc([], first);
    assert [] + [first] == [first];
    ScanSnoc([first], second);
    assert [first] + [second] == [first, second];
    ScanSnoc([first, second], other);
    assert [first, second] + [other] == [first, second, other];
  }

  /** `1f600.png`, `0023-fe0f-20e3.png` and `notanemoji.txt` give exactly the two images. */
  lemma ListingExample()
    ensures Scan(["1f600.png", "0023-fe0f-20e3.png", "notanemoji.txt"]) ==
            Mapped(map[[0x1f600] := "1f600.png", [0x23, 0xfe0f, 0x20e3] := "0023-fe0f-20e3.png"])
  {
    SingleCodePointExample();
    KeycapExample();
    assert !EndsWith("notanemoji.txt", PngSuffix) by {
      assert "notanemoji.txt"[11] != PngSuffix[1];
    }
    TwoImagesAndOther("1f600.png", "0023-fe0f-20e3.png", "notanemoji.txt", [0x1f600], [0x23, 0xfe0f, 0x20e3]);
  }

  /** Leading zeros do not change the code point: "23.png" and "0023.png" both give [0x23]. */
  lemma PaddedExample()
    ensures ParseFilename("23.png") == Some([0x23])
    ensures ParseFilename("0023.png") == Some([0x23])
  {
    KeycapSegmentValues();
    assert ParseHex("23") == Some(0x23) by {
      assert ToHex(0x23) == "23";
    }
    SegmentsOfJoin("23.png", ["23"]);
    SegmentsOfJoin("0023.png", ["0023"]);
    assert ["23"][..0] == [] && ["0023"][..0] == [];
    assert ParseSegments(["23"]) == [0x23];
    assert ParseSegments(["0023"]) == [0x23];
  }

  /** Two names with the same code points: the table keeps the later one. */
  lemma CollisionKeepsLater(earlier: string, later: string, key: EmojiKey)
    requires ParseFilename(earlier) == Some(key) && ParseFilename(later) == Some(key)
    ensures Scan([earlier, later]) == Mapped(map[key := later])
  {
    ScanSnoc([], earlier);
    assert [] + [earlier] == [earlier];
    ScanSnoc([earlier], later);
    assert [earlier] + [later] == [earlier, later];
    assert map[key := earlier][key := later] == map[key := later];
  }

  /** "23.png" and "0023.png" collide; whichever the listing gives last is kept. */
  lemma CollisionExample()
    ensures Scan(["23.png", "0023.png"]) == Mapped(map[[0x23] := "0023.png"])
    ensures Scan(["0023.png", "23.png"]) == Mapped(map[[0x23] := "23.png"])
  {
    PaddedExample();
    CollisionKeepsLater("23.png", "0023.png", [0x23]);
    CollisionKeepsLater("0023.png", "23.png", [0x23]);
  }
}
