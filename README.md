# Twemoji filename mapping, modelled in Dafny

A model of `scripts/generate_emoji_mapping.py` from md2pdf-converter. The
script scans a cache directory of Twemoji images whose names spell Unicode
code points in hexadecimal, joined by `-` and followed by `.png`
(`0023-fe0f-20e3.png`). It builds a dictionary from each emoji string to the
image's filename. The model covers the two parts with logic in them:

- `parse_twemoji_filename` (lines 15-36). The spec function
  `EmojiMapping.ParseFilename` and the method `EmojiMapping.ParseTwemojiFilename`,
  whose `for` loop appends one code point per segment that parses, as the source does.
- the loop of `generate_mapping` (lines 41-60). The spec function
  `EmojiMapping.Scan` and the method `EmojiMapping.GenerateMapping`, which fills a
  `map` in a `for` loop over the directory listing.

The listing is an input sequence in whatever order the file system gives, and
whether the directory exists is a boolean input. A Python `str` is a sequence
of code points 0..0x10FFFF, so an emoji key is a `seq<CodePoint>`.
`''.join(chr(cp) for cp in codepoints)` is the identity on such code points.
For a larger code point `chr` raises: `ValueError` above 0x10FFFF, and
`OverflowError` once the value no longer fits a C `int`. Nothing catches
either, so the run ends. The model records that outcome as
`ChrOutOfRange(filename, codepoint)`, naming the first offending file and
its first offending code point; Python's exception itself names neither.

Files:
- `wrappers.dfy`: `Option` (Python's `None`-or-value) and `Result` (a value or a raised error).
- `py_str.dfy`: `str.endswith`, `str.split` on one character, and `str.join` as its inverse.
- `hex.dfy`: `int(s, 16)` on a segment, and the lower-case formatter it inverts.
- `emoji_mapping.dfy`: the parser, the key conversion, the mapping loop and their properties.

The comment at line 33 calls `fe0f` a selector that is ignored, but `fe0f`
is valid hexadecimal, so the loop keeps it, as the docstring's example at
line 18 shows (`KeycapExample`). The model follows the code: only segments
that `int(_, 16)` rejects are dropped.

## Model

| member | source | states |
|---|---|---|
| PyStr.EndsWith | scripts/generate_emoji_mapping.py:21 | `filename.endswith('.png')` holds exactly when the name is some stem followed by `.png`, compared case-sensitively |
| PyStr.Split | scripts/generate_emoji_mapping.py:25 | `basename.split('-')` returns one more piece than there are separators, and no piece holds a `-` |
| PyStr.JoinSplit | scripts/generate_emoji_mapping.py:25 | joining the pieces of a split with the separator gives the base name back |
| PyStr.SplitJoin | scripts/generate_emoji_mapping.py:25 | splitting a join of separator-free pieces gives exactly those pieces |
| Hex.ToHex | scripts/generate_emoji_mapping.py:30 | the lower-case hex of n is a valid segment, and `int(_, 16)` maps it back to n |
| Hex.ParseHex | scripts/generate_emoji_mapping.py:29-34 | `int(part, 16)`: a run of hex digits gives its value, a leading `-` negates it, a result is negative only with a leading `-`, and `None` stands for `ValueError` |
| Hex.SignedValues | scripts/generate_emoji_mapping.py:30 | `int('-' + h, 16)` is minus and `int('+' + h, 16)` is plus the value of any run of ASCII hex digits `h`, in either case and with leading zeros |
| Hex.LeadingZeros | scripts/generate_emoji_mapping.py:30 | leading zeros do not change a segment's value (`0023` and `23`) |
| EmojiMapping.ParseTwemojiFilename | scripts/generate_emoji_mapping.py:15-36 | the loop over segments returns `None` for a non-`.png` name, otherwise the values of the parseable segments in order, or `None` if there are none |
| EmojiMapping.ParseSegmentsAppend | scripts/generate_emoji_mapping.py:27-34 | segments are handled independently: the result for `a + b` is the result for `a` followed by that for `b` |
| EmojiMapping.DropUnparseable | scripts/generate_emoji_mapping.py:29-34 | an unparseable segment is dropped without changing what the other segments give |
| EmojiMapping.ParseSegmentsMembers | scripts/generate_emoji_mapping.py:27-34 | a value is in the result if and only if some segment parses to it |
| EmojiMapping.ParseSegmentsEmpty | scripts/generate_emoji_mapping.py:27-36 | the result is empty if and only if every segment fails to parse |
| EmojiMapping.ParseSegmentsLength | scripts/generate_emoji_mapping.py:27-34 | at most one code point per segment; when all segments parse, exactly one each, in segment order |
| EmojiMapping.ParseFilenameNone | scripts/generate_emoji_mapping.py:21-36 | `None` if and only if the name lacks the case-sensitive `.png` suffix or no segment parses; otherwise a non-empty list of exactly the parsed segments' values |
| EmojiMapping.ParseJoinedPieces | scripts/generate_emoji_mapping.py:14-36 | every name `<hex>(-<hex>)*.png`, in any case and with any leading zeros, parses to the values of its pieces in order |
| EmojiMapping.ParseFormatFilename | scripts/generate_emoji_mapping.py:14-36 | a code point list written in lower-case hex without padding, joined by `-`, with `.png`, parses back to that list |
| EmojiMapping.ParsedCodePointsNonNegative | scripts/generate_emoji_mapping.py:25-34 | every parsed code point is non-negative, because the split leaves no `-` in a segment |
| EmojiMapping.RaisesOnlyAboveMax | scripts/generate_emoji_mapping.py:54-57 | `chr` refuses a parsed code point only for being above 0x10FFFF |
| EmojiMapping.SegmentsOfJoin | scripts/generate_emoji_mapping.py:24-25 | stripping `.png` and splitting a name built from `-`-joined pieces gives those pieces |
| EmojiMapping.SmileValue | scripts/generate_emoji_mapping.py:19 | the segment `1f600` is 0x1F600 |
| EmojiMapping.SingleCodePointExample | scripts/generate_emoji_mapping.py:19 | `1f600.png` gives `[0x1f600]` |
| EmojiMapping.KeycapSegmentValues | scripts/generate_emoji_mapping.py:18 | the segments `0023`, `fe0f`, `20e3` are 0x23, 0xFE0F, 0x20E3 |
| EmojiMapping.KeycapExample | scripts/generate_emoji_mapping.py:18 | `0023-fe0f-20e3.png` gives `[0x23, 0xfe0f, 0x20e3]`, keeping `fe0f` |
| EmojiMapping.SuffixExamples | scripts/generate_emoji_mapping.py:21-22 | `readme.txt` and the upper-case `1F600.PNG` give `None` |
| EmojiMapping.BareSuffixExample | scripts/generate_emoji_mapping.py:24-36 | `.png` has the single empty segment `""` and gives `None` |
| EmojiMapping.NonHexExample | scripts/generate_emoji_mapping.py:27-36 | `zz-yy.png` gives `None` |
| EmojiMapping.OnlySeparatorsExample | scripts/generate_emoji_mapping.py:25-36 | `--.png` gives `None` |
| EmojiMapping.EmptySegmentExample | scripts/generate_emoji_mapping.py:25-34 | `a--.png` drops its two empty segments and gives `[0xa]` |
| EmojiMapping.PaddedExample | scripts/generate_emoji_mapping.py:30 | `23.png` and `0023.png` both give `[0x23]` |
| EmojiMapping.ToKey | scripts/generate_emoji_mapping.py:57 | the emoji string is built exactly when every code point lies in 0..0x10FFFF (the range `chr` accepts), and it then has exactly those code points; otherwise the error is the first code point `chr` refuses |
| EmojiMapping.Insert | scripts/generate_emoji_mapping.py:51-60 | one iteration leaves the table unchanged for a name that does not parse, raises exactly when `chr` refuses one of its code points, and otherwise stores the name under its code points with every other entry unchanged |
| EmojiMapping.GenerateMapping | scripts/generate_emoji_mapping.py:39-60 | the existence check and the loop over the listing give what `Generate` describes: no directory, the first `chr` failure, or the finished table |
| EmojiMapping.ScanStopsAt | scripts/generate_emoji_mapping.py:54-57 | once `chr` has raised, the files after it never affect the outcome |
| EmojiMapping.InsertEffect | scripts/generate_emoji_mapping.py:51-60 | one iteration leaves the table unchanged for a name that does not parse; otherwise it writes the name under its code points and changes no other key |
| EmojiMapping.InsertRaises | scripts/generate_emoji_mapping.py:54-60 | one iteration raises exactly for a name with a code point `chr` refuses |
| EmojiMapping.InsertParsed | scripts/generate_emoji_mapping.py:54-60 | a name that parses to an in-range key is stored under that key, overwriting any earlier entry |
| EmojiMapping.ScanSnoc | scripts/generate_emoji_mapping.py:50-60 | one more name in the listing is one more iteration of the loop, unless the loop already raised |
| EmojiMapping.ScanPrefixMapped | scripts/generate_emoji_mapping.py:50-60 | if the whole loop completes, the loop over every prefix completes |
| EmojiMapping.ScanMappedIff | scripts/generate_emoji_mapping.py:50-60 | the loop completes if and only if no name parses to a code point `chr` refuses; it never reports a missing directory |
| EmojiMapping.ScanRaisesAtFirst | scripts/generate_emoji_mapping.py:50-57 | the run stops at the first such file in listing order, on its first out-of-range code point, which the outcome records |
| EmojiMapping.ScanSound | scripts/generate_emoji_mapping.py:50-60 | every entry's value is a `.png` name of the listing, and that name parses to the entry's key |
| EmojiMapping.ScanLastWins | scripts/generate_emoji_mapping.py:60 | a name that parses is the table's value for its key unless a later name parses to the same key |
| EmojiMapping.ScanComplete | scripts/generate_emoji_mapping.py:54-60 | every name of the listing that parses has its code points as a key of the table |
| EmojiMapping.ScanSize | scripts/generate_emoji_mapping.py:41-62 | the table has no more entries than the listing has `.png` names |
| EmojiMapping.ScanEmpty | scripts/generate_emoji_mapping.py:41-60 | the table is empty if and only if no name of the listing parses |
| EmojiMapping.ScanIgnoresNonPng | scripts/generate_emoji_mapping.py:51-52 | removing every name without the `.png` suffix from the listing does not change the outcome |
| EmojiMapping.GenerateMissing | scripts/generate_emoji_mapping.py:43-45 | a missing directory gives the `None` result, and an existing one never does |
| EmojiMapping.TwoImagesAndOther | scripts/generate_emoji_mapping.py:50-60 | two images with different keys and one non-`.png` file give a table of exactly the two images |
| EmojiMapping.ListingExample | scripts/generate_emoji_mapping.py:50-60 | `1f600.png`, `0023-fe0f-20e3.png`, `notanemoji.txt` give exactly two entries, U+1F600 and U+0023 U+FE0F U+20E3 |
| EmojiMapping.CollisionKeepsLater | scripts/generate_emoji_mapping.py:60 | two names with the same code points leave a single entry holding the later name |
| EmojiMapping.CollisionExample | scripts/generate_emoji_mapping.py:60 | `23.png` and `0023.png` collide, and whichever the listing gives last is kept |

## Left out

- `os.path.expanduser`, the global `TWEMOJI_DIR`, `os.path.exists` and `os.listdir` are file-system access. The listing is an input sequence and the existence check is a boolean input.
- The order of `os.listdir` is unspecified. Every property holds for whatever order the listing gives.
- Writing `emoji_mapping.json` with `json.dump(..., ensure_ascii=False, indent=2)` (lines 64-67) is library serialisation and I/O, and no write failure is modelled. `Mapped` is the table the loop builds, not a promise that it is written and returned. A key holding a surrogate code point (from a name such as `d800.png`, which the model maps to `[0xd800]`) cannot be encoded to the UTF-8 file, so in Python `json.dump` raises `UnicodeEncodeError` after a partial write and nothing is returned.
- A Python `dict` keeps an overwritten key at the position where it was first inserted, and `json.dump` writes the entries in that order. A Dafny `map` has no order, so the model does not capture the order of the written entries.
- The `print` diagnostics (lines 44, 47, 62, 69) are console output only.
- Hex.ParseHex: Python's `int(s, 16)` also accepts surrounding whitespace, a `0x` prefix, `_` between digits and non-ASCII Unicode digits. The model accepts only an optional `+` or `-` followed by a non-empty run of ASCII hex digits in either case, and drops the other forms.
- Filenames are Dafny strings of Unicode scalar values. Lone surrogates, which Python can produce from undecodable bytes in a file name, are not modelled. Emoji keys are sequences of code points and do include the surrogate range that `chr` accepts.
