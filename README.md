# seratojs crate codec, modelled in Dafny

seratojs reads and writes Serato DJ crate files. A crate file is a 64-byte
"vrsn" header followed by one "otrk" chunk per song. Each "otrk" chunk holds a
"ptrk" chunk, which carries the song's path as zero-interleaved text (a zero
byte before each character) after a 4-byte big-endian length.

This project models the core of `index.js`:

- **`parse`**: two loops. The first collects every offset where the bytes
  "ptrk" occur. The second slices each song out of the file, from 9 bytes past
  one match to 8 bytes before the next match (or to the end of the file),
  strips the zero bytes and puts "/" in front.
- **`toSeratoString`**: writes text zero-interleaved.
- **`intToHexbin`**: writes a 32-bit big-endian length field by way of an
  8-digit hex string.
- **The `Crate` class**: its lazily loaded `songPaths` list, `addSong`,
  `getSongPathsSync` and `_buildSaveBuffer`.

The main theorem is the round trip: for normalized absolute paths whose
characters are 7-bit and nonzero, `parse(_buildSaveBuffer(paths))` gives back
`paths`, the same paths in the same order. The key fact behind it is that
"ptrk" occurs in the written file only at each segment's own path tag:

- the header contains no 'p';
- the path data has a zero byte at every even offset;
- neither size field can read as "ptrk". The tag's last byte, 'k', is odd,
  while the sizes are even, or 1 and 9 for the root path.

The header is the literal the code writes: "vrsn", BE32(56) ("\0\0\0" then
'8'), then "1.0/Serato ScratchLive Crate" zero-interleaved, with every space
as a zero byte.

Modules:

- `Framing` (framing.dfy): bytes and tags, the big-endian field, `intToHexbin`,
  `toSeratoString`, zero stripping, JavaScript `slice`, and the two path
  conversions.
- `Encoder` (encoder.dfy): the header literal and the segment layout. These
  are the specification of `_buildSaveBuffer`.
- `Decoder` (decoder.dfy): the `parse` method and the function that specifies
  it.
- `RoundTrip` (roundtrip.dfy): where "ptrk" can occur in a written file, and
  the round trip.
- `CrateState` (crate.dfy): the `Crate` class.

## Model

| member | source | states |
|---|---|---|
| Framing.Be32 | index.js:54-62 | the field `intToHexbin` writes for `n < 2^32` is 4 bytes long; its value is stated by `Be32ValueOfBe32` |
| Framing.Hex8 | index.js:55 | the zero-padded numeral has exactly 8 digits, each a hex digit 0..15 |
| Framing.HexPair | index.js:58-59 | two hex digits read together make a number in 0..255 |
| Framing.IntToHexbin | index.js:54-62 | for `0 <= n < 2^32` the result is 4 bytes whose big-endian value is `n`, namely the bytes of `Be32(n)`; the loop over the digit pairs keeps "the bytes so far are the first `idx/2` bytes of the field" |
| Framing.HexPairIsBe32Byte | index.js:55-59 | the pair of hex digits at `2k` of the zero-padded numeral, read as one number, is byte `k` of the big-endian field |
| Framing.Be32ValueOfBe32 | index.js:54-62 | reading back the 4 bytes written for `n < 2^32` gives `n` |
| Framing.Be32OfValue | index.js:54-62 | every 4-byte field is the one written for its value, so the field determines the number and the number the field |
| Framing.JoinWithZero | index.js:51 | `split("").join("\0")` has length `2|s|-1`, or 0 for empty `s`; where each byte lands is stated by `JoinWithZeroAt` |
| Framing.JoinWithZeroAt | index.js:51 | `split("").join("\0")` puts character `i` at offset `2i` and a zero at every odd offset; the length is `2|s|-1`, or 0 for empty `s` |
| Framing.ToSeratoString | index.js:50-52 | the length is `2|s|` for nonempty `s` and 1 for empty `s` |
| Framing.ToSeratoStringAt | index.js:50-52 | every even offset holds a zero byte and character `i` sits at offset `2i+1`: exactly one zero before each character |
| Framing.StripZeros | index.js:44 | the result has no zero byte and is no longer than the input |
| Framing.StripZerosOfZeroFree | index.js:44 | removing zero bytes from text without any changes nothing |
| Framing.StripZerosOfJoin | index.js:44 | stripping zeros undoes `split("").join("\0")` for zero-free text |
| Framing.StripZerosOfSerato | index.js:44 | stripping zeros undoes `toSeratoString` for zero-free text |
| Framing.SliceBound | index.js:43 | a `slice` bound in range is kept, a negative one counts back from the end, one past the length becomes the length, and one below minus the length becomes 0 |
| Framing.JsSlice | index.js:43 | `slice` with in-range bounds is the sub-sequence; a non-negative end at or before the start gives empty; an end past the length stops at the end; a start at or past the length gives empty; a negative end counts back from the end of the text |
| Framing.Relative | index.js:103 | `path.relative("/", p)` drops the leading "/" and `Resolve` of it gives `p` back |
| Framing.Resolve | index.js:45 | `path.resolve("/", s)` is absolute, with `s` after its leading "/" |
| Encoder.HeaderLayout | index.js:96-99 | the header is 64 bytes and starts "vrsn"; its size field is BE32(56), the number of header bytes after it; it contains no 'p', hence no "ptrk" |
| Encoder.PathData | index.js:103 | the data for path `p` is 1 byte for the root and `2(|p|-1)` bytes otherwise |
| Encoder.Segment | index.js:104-106 | a segment is 17 bytes for the root path, otherwise 16 plus twice the relative path's length |
| Encoder.SegmentLayout | index.js:104-106 | "otrk" at 0; an "otrk" size equal to the bytes after that field; "ptrk" at 8; a "ptrk" size equal to the data length; then the data |
| Encoder.SongSegmentExample | index.js:102-107 | "/music/song.mp3" is written with a "ptrk" size of 28 and an "otrk" size of 36 |
| Encoder.Segments | index.js:102-107 | one segment per path |
| Encoder.Body | index.js:101-107 | the playlist section is empty exactly when the list is |
| Encoder.Encode | index.js:109 | the file is the 64-byte header followed by the playlist section |
| Encoder.EncodeEmpty | index.js:101-109 | an empty list is written as the 64-byte header alone |
| Encoder.FlattenSplit | index.js:106 | appending segment after segment puts segment `k` after all the earlier segments and before all the later ones |
| Encoder.BodySplit | index.js:102-107 | in the playlist section, the segment of path `k` comes after those of the earlier paths and before those of the later ones |
| Encoder.SegmentsAfter | index.js:106 | whatever follows a segment that is not the last starts with the four bytes of the "otrk" tag |
| Decoder.TagAtIsSlice | index.js:31 | the match test at offset `i` holds exactly when the four-byte `slice(i, i + 4)` is "ptrk" |
| Decoder.MatchesIn | index.js:29-34 | the offsets of "ptrk" in a range, at most one per offset of the range |
| Decoder.Matches | index.js:29-34 | the `indices` of the whole file, at most one per byte |
| Decoder.MatchesInExact | index.js:29-34 | the collected indices are exactly the offsets where "ptrk" starts, every such offset is listed, and they ascend strictly |
| Decoder.SongAt | index.js:39-45 | each song read is absolute and contains no zero byte |
| Decoder.ParseSpec | index.js:27-48 | one entry per "ptrk" offset, in offset order; each is absolute and zero-free |
| Decoder.Parse | index.js:27-48 | the two loops return exactly `ParseSpec(contents)`, one song per match |
| Decoder.MatchesInSplit | index.js:29-34 | the matches of a range are the matches of its two halves, in order |
| Decoder.MatchesInChain | index.js:29-34 | a file cut into pieces, each holding one match 8 bytes in, has as its indices those offsets in piece order |
| Decoder.MatchesInSingle | index.js:29-34 | a range where "ptrk" starts at `x` alone yields the single index `x` |
| Decoder.ParseWithoutTag | index.js:27-48 | a file without "ptrk" parses to no songs |
| RoundTrip.SizeFieldsAreNotTags | index.js:104-106 | neither size field of a segment is the bytes "ptrk" |
| RoundTrip.NoTagInFraming | index.js:106 | no "ptrk" starts in a segment's tags and size fields other than at its path tag |
| RoundTrip.NoTagInData | index.js:103 | no "ptrk" starts inside zero-interleaved data followed by the end of the file or by "otrk" |
| RoundTrip.SegmentIsShaped | index.js:102-107 | every written segment has tags at 0 and 8, size fields that are not "ptrk", and zeros at the even data offsets |
| RoundTrip.ShapedTagAt | index.js:106 | within such a segment and across its edges, "ptrk" starts only at offset 8 |
| RoundTrip.SegmentOfFile | index.js:102-107 | in a written file, segment `k` lies between consecutive cut points and holds one match, at its path tag |
| RoundTrip.MatchesOfFile | index.js:29-34 | in a written file the indices `parse` collects are exactly each segment's start plus 8, one per path, in list order |
| RoundTrip.SongInSegment | index.js:39-45 | slicing from 9 past the match to the end of the segment, stripping zeros and putting "/" in front gives back the segment's path |
| RoundTrip.SongOfFile | index.js:37-47 | `parse` reads path `k` back from entry `k` of the file |
| RoundTrip.ParseFile | index.js:27-48 | `parse` of a leading part without 'p' followed by the playlist section for `ps` is `ps` |
| RoundTrip.ParseEncode | index.js:27-48 | `parse(_buildSaveBuffer(ps)) == ps` for normalized absolute paths of characters 1..127 |
| RoundTrip.ParseHeader | index.js:96-99 | the header alone parses to the empty list |
| CrateState.JoinPath | index.js:67 | `path.join(dir, file)` starts with `dir`, ends with `file`, and has exactly one "/" between them when `dir` does not end with one |
| CrateState.ResolveFrom | index.js:92 | `path.resolve(p)` is absolute: `p` itself when absolute, the working directory for "", otherwise `p` joined onto the working directory with one "/" |
| CrateState.Crate.constructor | index.js:65-70 | a new crate has its name, its file path in the crates folder, and no list yet (`null`) |
| CrateState.Crate.GetSongPathsSync | index.js:81-86 | with no list yet, parses the file and keeps the result; with a list, returns it and leaves it unchanged |
| CrateState.Crate.AddSong | index.js:87-94 | a missing list becomes `[]`; the resolved path is appended at the end and the earlier entries are unchanged |
| CrateState.Crate.BuildSaveBuffer | index.js:95-111 | with a list, the header followed by the segment of each path in order; the loop keeps "the section built so far is the segments of the first `i` paths"; for normalized paths `parse` of the result is the list; with no list, no buffer |

## Left out

- `listCrates` and `listCratesSync` (index.js:10-25) list a directory. That
  is file-system I/O.
- `getSongPaths`, `save` and `saveSync` (index.js:71-80, 112-121) are the
  asynchronous and synchronous file reads and writes.
  - The bytes read are the `contents` parameter of `GetSongPathsSync`.
  - The bytes written are the result of `BuildSaveBuffer`.
- `SERATO_FOLDER` and `CRATES_FOLDER` (index.js:7-8) depend on the home
  directory. The crates folder is the constructor's `subcratesFolder`
  parameter.
- Node's 'ascii' encoding (index.js:75, 83, 110) is not modelled.
  - On write it keeps each character's low byte. That is the identity for
    the bytes written here.
  - On read it clears each byte's high bit. The file is treated as already
    decoded bytes.
  - The round trip is stated for path characters in 1..127.
- CrateState.ResolveFrom: does not normalize ".", ".." or repeated "/" the
  way `path.resolve` does. It only joins a relative path onto the working
  directory, which is passed in as `cwd`.
- CrateState.JoinPath: likewise does not normalize its result as
  `path.join` does.
- Framing.Relative and Framing.Resolve: model `path.relative("/", p)` and
  `path.resolve("/", s)` only as dropping and adding the leading "/". That is
  exact for normalized paths, which the round trip requires.
- Framing.IntToHexbin: requires `n < 2^32`. For larger `n` the source formats
  more than 8 hex digits and writes only the first 8.
- CrateState.Crate.BuildSaveBuffer: requires every path to be at most
  0x7FFFFFFC bytes long, so that both size fields fit in 32 bits. Every path
  is absolute by the class invariant `Valid`.
- Framing.Be32, Framing.JoinWithZero and Framing.ToSeratoString: their own
  contracts state lengths only. Their contents are stated by
  Framing.Be32ValueOfBe32, Framing.JoinWithZeroAt and
  Framing.ToSeratoStringAt.
- The returned list is a fresh value here. In the source `getSongPathsSync`
  returns the object's own array, so a caller can change it by aliasing.
