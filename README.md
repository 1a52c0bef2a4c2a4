# gm_data_win: a verified model of the `data.win` decoder

`gm_data_win` reads a GameMaker `data.win` archive. The archive is one `FORM`
chunk whose payload is a sequence of chunks. Each chunk is a 4-byte magic, a
little-endian `u32` size and that many payload bytes. The decoder recognises
GEN8, STRG, SOND, AUDO, TXTR, TPAG, SPRT and FONT chunks and keeps any other
chunk opaque. Most section payloads are an *indirect table*: a count, that many
absolute `u32` pointers, and one record decoded at each pointer, plus a reverse
map from pointer to record index. The OBJT and ROOM decoders use a different
style, a `binrw` reader over a positioned cursor.

The model is written in Dafny, one module per source file:

- **`TrackSlice`** (`track_slice.rs`): the offset-tracked view `PosSlice`. It is a
  run of bytes together with the absolute file position of its first byte, plus
  the nom input operations on it: slicing, `take`/`take_split`, the four
  `split_at_position*` variants and `Compare`.
- **`Nom`**: the observable part of nom's `IResult` and of `alt`.
- **`ByteParsers`** (`byte_parsers.rs`): `le_u32`, `le_u16`, `le_u8` and `le_f32`.
  Also the `count` combinator over them, used for fixed-layout records.
- **`SectionHeader`** (`section_header.rs`): `take_section(magic)`.
- **`IndirectTable`**: the pointer-table pattern that STRG, AUDO, SOND, TPAG, TXTR,
  SPRT, FONT and AGRP repeat, written once as a function of the record decoder.
  It covers the pointer list, one record per pointer relative to the view after
  the list, and `locations` as a left fold in which the last duplicate wins.
  `get` is also here.
- **One module per section**: `StrgSection`, `AudoSection`, `SondSection`,
  `TpagSection`, `TxtrSection`, `SprtSection`, `FontSection`, `AgrpSection`,
  `Gen8Section`. Each gives its record layout and instantiates the table.
- **`Sections`** (the `define_sections!` expansion in `mod.rs`): the ordered
  dispatch, the `Unk` fallback, `many0` and `take_data_win_file`.
- **`Form`** (`mod.rs`): `FormFile` as a class whose `from_sections` loop updates
  its fields, and `get_tpag_info`.
- **`Cursor`** (`helpers.rs`): `PosCursor` as a class with a fixed base position
  and a mutable inner offset. It has `seek`, `read`, the `binrw` reads built on
  them, and `ptr_list`. Each method is proved against a pure function of the
  cursor state.
- **`ObjtSection`** (`objt.rs`) and **`RoomSection`** (`room.rs`): the `binrw`
  record layouts as pure state-passing readers, and the `take` methods that
  drive a `PosCursor`.
- **`Extension`** (`main.rs`): `extension_from_magic`.

**How the model represents the source**
- Integers are the subset types of `BoundedInts`. The bit-for-bit `u32` to
  `i32` casts are written out as wrap-around. The `pointer + 4` keys of STRG
  are a plain `u32` addition; the model takes its release-build wrap (see
  "Left out").
- An `f32` is kept as its raw 32 bits.
- A Rust panic becomes a precondition. This covers an `unwrap`, an out-of-range
  slice, the `offset - pos` underflow at a pointer, and a lone UTF-16 surrogate.
- A recoverable failure is modelled as an `Error`, `Incomplete` or `None` result.

## Model

| member | source | states |
|---|---|---|
| TrackSlice.Window.Bytes | src/file_structs/track_slice.rs:34-36 | the bytes of a view number exactly its length |
| TrackSlice.Window.Slice | src/file_structs/track_slice.rs:19-24 | `slice(start, end)` sits at `pos + start`, has `end - start` bytes and borrows the same buffer |
| TrackSlice.Window.Offset | src/file_structs/track_slice.rs:30-32 | `offset(off)` sits at `pos + off` and keeps every byte from `off` to the end |
| TrackSlice.Window.SliceIndex | src/file_structs/track_slice.rs:73-79 | `Some(count)` exactly when the view holds at least `count` bytes |
| TrackSlice.Window.Take | src/file_structs/track_slice.rs:89-91 | `take(n)` keeps the position and has `n` bytes |
| TrackSlice.Window.TakeSplit | src/file_structs/track_slice.rs:93-99 | `(suffix, prefix)`: the prefix sits at `pos` with `n` bytes, and the suffix at `pos + n` with the rest |
| TrackSlice.Window.SplitAtPosition | src/file_structs/track_slice.rs:115-126 | succeeds exactly when some byte matches, splitting at the first match; with no match it is `Incomplete(Size(1))` |
| TrackSlice.Window.SplitAtPosition1 | src/file_structs/track_slice.rs:128-140 | an `Error(self, e)` exactly when byte 0 matches; `Incomplete(Size(1))` exactly when nothing matches; otherwise a non-empty split at the first match |
| TrackSlice.Window.SplitAtPositionComplete | src/file_structs/track_slice.rs:142-152 | always succeeds: a split at the first match, or the whole view with an empty suffix at `pos + len` |
| TrackSlice.Window.SplitAtPosition1Complete | src/file_structs/track_slice.rs:154-171 | an `Error(self, e)` exactly when the view is empty or byte 0 matches; never `Incomplete`; otherwise a non-empty prefix split at the first match, or the whole view |
| TrackSlice.Window.Compare | src/file_structs/track_slice.rs:174-177 | `Ok` exactly when `to` is a prefix of the bytes; `Incomplete` exactly when the bytes are a proper prefix of `to` |
| TrackSlice.Window.CompareNoCase | src/file_structs/track_slice.rs:179-181 | the same, after ASCII lower-casing both sides |
| TrackSlice.FindFirst | src/file_structs/track_slice.rs:119 | the `find` over `0..len`: the least index whose byte matches, or none when no byte does |
| TrackSlice.Lowered | src/file_structs/track_slice.rs:179-181 | lower-casing keeps the length and maps each byte |
| TrackSlice.LoweredPrefix | src/file_structs/track_slice.rs:179-181 | case-insensitive agreement on the common prefix is equality of the lowered prefixes |
| TrackSlice.CompareByAgrees | src/file_structs/track_slice.rs:174-192 | the byte-wise comparison gives `Error` exactly on a mismatch in the common prefix, and `Ok` exactly when the prefixes agree and `to` is no longer |
| TrackSlice.CompareByExact | src/file_structs/track_slice.rs:174-177 | exact comparison `Ok`/`Incomplete` in terms of sequence prefixes |
| TrackSlice.FromSlice | src/file_structs/track_slice.rs:5-10 | a view of the whole file at position 0 |
| TrackSlice.New | src/file_structs/track_slice.rs:12-17 | a view with the given position and bytes |
| TrackSlice.SliceBytes | src/file_structs/track_slice.rs:19-24 | the bytes of `slice(from, to)` are `bytes[from..to]` |
| TrackSlice.TakeSplitBytes | src/file_structs/track_slice.rs:89-99 | prefix ++ suffix is the original bytes; the suffix is `offset(n)` and the prefix is `take(n)` |
| TrackSlice.ConsBytes | src/file_structs/track_slice.rs:30-32 | a non-empty view is its first byte followed by `offset(1)` |
| TrackSlice.SliceKeepsView | src/file_structs/track_slice.rs:19-24 | a sub-slice of a view of a file is again a view of that file at the right position |
| TrackSlice.OffsetOffset | src/file_structs/track_slice.rs:30-32 | `offset(a).offset(b) == offset(a + b)` |
| Nom.IResult.PropagateFailure | src/file_structs/section_header.rs:12 | the `?` operator re-raises an `Error` with the same input and kind, and an `Incomplete` with the same need |
| Nom.Alt | src/file_structs/mod.rs:78-83 | `alt` moves to the next parser only on an `Error`; success and `Incomplete` are final |
| BoundedInts.AsInt32 | src/file_structs/sprt.rs:129 | `u32 as i32`: the result is congruent to the word modulo 2^32 and is negative exactly when the top bit is set |
| BoundedInts.AsInt32Unique | src/file_structs/sprt.rs:129 | that congruence pins the cast down uniquely |
| BoundedInts.WrappingAdd | src/file_structs/strg.rs:39 | `u32` addition as a release build computes it, wrapping at 2^32 |
| ByteParsers.LeNum4 | src/file_structs/byte_parsers.rs:10-13 | the little-endian value of four bytes is `b0 + 2^8 b1 + 2^16 b2 + 2^24 b3` |
| ByteParsers.LeNum2 | src/file_structs/byte_parsers.rs:28-31 | the little-endian value of two bytes is `b0 + 2^8 b1` |
| ByteParsers.LeU32 | src/file_structs/byte_parsers.rs:10-17 | with at least 4 bytes: the little-endian word and the remainder `offset(4)`; otherwise `Error(input, Eof)` |
| ByteParsers.LeF32 | src/file_structs/byte_parsers.rs:19-26 | the same 4 bytes as `le_u32`, kept as raw bits; the same `Eof` error |
| ByteParsers.LeU16 | src/file_structs/byte_parsers.rs:28-35 | with at least 2 bytes: the little-endian half-word and the remainder `offset(2)`; otherwise `Error(input, Eof)` |
| ByteParsers.LeU8 | src/file_structs/byte_parsers.rs:37-44 | with at least 1 byte: that byte and the remainder `offset(1)`; otherwise `Error(input, Eof)` |
| ByteParsers.LeBytes32 | src/file_structs/byte_parsers.rs:10-13 | the little-endian encoding of a `u32` is 4 bytes |
| ByteParsers.LeBytes32Decodes | src/file_structs/byte_parsers.rs:10-13 | decoding the encoding of `x` yields `x` |
| ByteParsers.LeU32RoundTrip | src/file_structs/byte_parsers.rs:10-17 | `le_u32` over `encode(x) ++ tail` yields `x` and leaves exactly `tail`, at position `pos + 4` |
| ByteParsers.WordAtOffset | src/file_structs/byte_parsers.rs:13 | word `k` of `offset(4q)` is word `q + k` of the view |
| ByteParsers.WordAtPrefix | src/file_structs/byte_parsers.rs:10-13 | a word depends only on the bytes that hold it |
| ByteParsers.HalfWordAtOffset | src/file_structs/byte_parsers.rs:31 | half-word `k` of `offset(2q)` is half-word `q + k` of the view |
| ByteParsers.WordsAtShift | src/file_structs/byte_parsers.rs:13 | word runs read after `offset(4q)` are the runs `q` words further in |
| ByteParsers.WordsAtIff | src/file_structs/byte_parsers.rs:10-13 | a word run is present exactly when it fits and each element is the word at its index |
| ByteParsers.WholeWords | src/file_structs/byte_parsers.rs:10-17 | how far a run of `le_u32` reads gets before failing is at most the length |
| ByteParsers.WholeWordsFloor | src/file_structs/byte_parsers.rs:10-17 | that is the length rounded down to a multiple of 4 |
| ByteParsers.WholeWordsSkip | src/file_structs/byte_parsers.rs:10-17 | skipping `q` whole words first does not change where the run fails |
| ByteParsers.WholeHalfWords | src/file_structs/byte_parsers.rs:28-35 | the same bound for runs of `le_u16` |
| ByteParsers.WholeHalfWordsFloor | src/file_structs/byte_parsers.rs:28-35 | the length rounded down to a multiple of 2 |
| ByteParsers.WholeHalfWordsSkip | src/file_structs/byte_parsers.rs:28-35 | skipping `q` half-words first does not change where the run fails |
| ByteParsers.CountU32 | src/file_structs/strg.rs:25 | `count(le_u32, n)`: succeeds exactly when `4n` bytes remain, with the `n` words and remainder `offset(4n)`; otherwise the `Eof` of the first read that came up short |
| ByteParsers.CountU32Then | src/file_structs/sprt.rs:84-95 | `count(le_u32, m)` after `n` words reads words `n..n+m` of the view and fails where the whole run would |
| ByteParsers.WordAfter | src/file_structs/sprt.rs:84-93 | `le_u32` after `q` words reads word `q` |
| ByteParsers.CountU16 | src/file_structs/tpag.rs:57-63 | `count(le_u16, n)` likewise for half-words |
| ByteParsers.CountU16Then | src/file_structs/tpag.rs:72-77 | `count(le_u16, m)` after `n` half-words reads half-words `n..n+m` |
| ByteParsers.CountU8 | src/file_structs/strg.rs:17 | `count(le_u8, n)`: exactly the first `n` bytes and remainder `offset(n)`, or `Eof` at the end of the view |
| ByteParsers.LengthPrefixedBytes | src/file_structs/audo.rs:46-49 | the payload of a length-prefixed record has the declared length |
| ByteParsers.LengthPrefixed | src/file_structs/audo.rs:46-49 | a `u32` size then that many bytes: succeeds exactly when both fit, resuming after them; `Eof` at the input when the size is cut short, at the end otherwise |
| ByteParsers.LengthPrefixedRoundTrip | src/file_structs/strg.rs:16-19 | reading `encode(|s|) ++ s ++ tail` yields `s` and leaves exactly `tail` |
| SectionHeader.TagBytes | src/file_structs/section_header.rs:12 | `tag(magic)` succeeds exactly when the view starts with the magic; otherwise `Error(input, Tag)` |
| SectionHeader.TakeBytes | src/file_structs/section_header.rs:15 | `take(n)` succeeds exactly when `n` bytes remain; otherwise `Error(input, Eof)` |
| SectionHeader.TakeSection | src/file_structs/section_header.rs:10-17 | succeeds exactly when the magic, the size word and `size` payload bytes are present; the payload is `slice(8, 8 + size)` and the rest follows it; each of the three failures has its own error and position |
| SectionHeader.Payload | src/file_structs/section_header.rs:15 | the payload of a framed chunk sits at `pos + 8` and holds `size` bytes |
| SectionHeader.After | src/file_structs/section_header.rs:15 | what follows a framed chunk starts at `pos + 8 + size` |
| SectionHeader.TakeSectionFrames | src/file_structs/section_header.rs:10-17 | for a 4-byte magic, `take_section` succeeds exactly on a framed chunk with that magic and returns its payload and what follows it |
| SectionHeader.FramedPrefix | src/file_structs/section_header.rs:10-17 | the framing and payload of a chunk do not depend on bytes beyond it |
| SectionHeader.TakeSectionSplitsBody | src/file_structs/section_header.rs:15 | payload ++ rest is the input after the header, and the rest starts where the payload ends |
| SectionHeader.TakeSectionRoundTrip | src/file_structs/section_header.rs:10-17 | framing `magic ++ encode(|body|) ++ body ++ tail` yields exactly `body`, and then `tail` |
| IndirectTable.PointerList | src/file_structs/strg.rs:24-25 | `count` then `count` pointers: succeeds exactly when all fit, with the words at indices 1.. and the remainder after them |
| IndirectTable.Target | src/file_structs/strg.rs:14-15 | `input.offset(p - input.pos())` is the view starting at absolute position `p` |
| IndirectTable.DecodeAll | src/file_structs/strg.rs:27-35 | one record per pointer in pointer order, each decoded at its target; on failure, the first failing record's error |
| IndirectTable.DecodedBeforePrefix | src/file_structs/strg.rs:27-32 | whether the first `k` records decode does not depend on later pointers |
| IndirectTable.AllSafePrefix | src/file_structs/strg.rs:27-32 | the no-panic condition of a pointer list holds for each of its prefixes |
| IndirectTable.FrontFailureLifts | src/file_structs/strg.rs:27-32 | a failure among the first `n` records is the failure of the whole list |
| IndirectTable.Locations | src/file_structs/strg.rs:37-40 | the `enumerate`/`collect` map: its keys are the shifted pointers, and each maps to the last index holding it |
| IndirectTable.LocationsKeysStep | src/file_structs/strg.rs:37-40 | inserting one more pointer adds exactly its key |
| IndirectTable.LocationsLastStep | src/file_structs/strg.rs:37-40 | inserting one more pointer keeps every key mapped to its last index |
| IndirectTable.TakeTable | src/file_structs/strg.rs:22-46 | a pointer-list failure propagates; otherwise success exactly when every record decodes, with the records in pointer order, `locations` as above and the remainder right after the list |
| IndirectTable.Get | src/file_structs/strg.rs:48-51 | `Some(records[locations[loc]])` exactly when `loc` is a key, else `None` |
| IndirectTable.TakeTableTotal | src/file_structs/audo.rs:20-44 | for a decoder that fails only by not fitting, the table succeeds exactly when every pointer is in range and its record fits |
| IndirectTable.GetAfterTake | src/file_structs/strg.rs:48-51 | after `take`, `get(loc)` is `None` exactly when no shifted pointer equals `loc`, and is otherwise the record at the last such pointer |
| IndirectTable.GetFindsLast | src/file_structs/strg.rs:37-51 | the same for any table built with `Locations` |
| IndirectTable.ZeroShiftKeys | src/file_structs/audo.rs:35-38 | with no shift, the keys are exactly the pointers |
| IndirectTable.WrappingAddInjective | src/file_structs/strg.rs:39 | adding the STRG shift modulo 2^32 keeps distinct pointers distinct |
| IndirectTable.LocationsOfDistinct | src/file_structs/strg.rs:37-40 | with distinct pointers, each key maps back to its own index |
| StrgSection.Take | src/file_structs/strg.rs:13-46 | the table of length-prefixed strings: every string fits exactly when it succeeds; keys are `pointer + 4` modulo 2^32 |
| StrgSection.GetString | src/file_structs/strg.rs:48-51 | `get(loc)` finds the string whose first character is at `loc`, taking the last duplicate |
| AudoSection.TakeAudoEntry | src/file_structs/audo.rs:46-49 | an audio file is a `u32` size followed by exactly that many bytes |
| AudoSection.Take | src/file_structs/audo.rs:13-44 | one file per pointer in order, keyed by the pointer; any file that does not fit fails the table |
| AudoSection.GetFile | src/file_structs/audo.rs:51-55 | `get(loc)` is `None` exactly when `loc` is no pointer, else the file at its last occurrence |
| SondSection.TakeEntry | src/file_structs/sond.rs:59-98 | a `SondEntry` is the nine words of its 36 bytes in declared order, `play_speed` being the raw sixth |
| SondSection.Take | src/file_structs/sond.rs:13-44 | one entry per pointer in order, keyed by the pointer; any entry that does not fit fails the table |
| SondSection.GetSound | src/file_structs/sond.rs:100-104 | `get(loc)` is `None` exactly when `loc` is no pointer, else the entry at its last occurrence |
| AgrpSection.TakeEntry | src/file_structs/agrp.rs:13-18 | an audio group is the single `u32` at its pointer |
| AgrpSection.Take | src/file_structs/agrp.rs:20-44 | one word per pointer in order; success exactly when every pointer is in range with 4 bytes after it |
| AgrpSection.LocationsOfTake | src/file_structs/agrp.rs:35-38 | the keys are exactly the pointers, each mapped to its last index |
| TpagSection.TakePoint16 | src/file_structs/tpag.rs:57-59 | a `Point16` is two little-endian `u16` |
| TpagSection.PointAfter | src/file_structs/tpag.rs:57-59 | a `Point16` read after `q` half-words takes half-words `q` and `q + 1` |
| TpagSection.TakeRect16 | src/file_structs/tpag.rs:61-63 | a `Rect16` is two `Point16`: 8 bytes |
| TpagSection.RectAfter | src/file_structs/tpag.rs:61-63 | a `Rect16` read after `q` half-words takes the next four |
| TpagSection.TakeEntry | src/file_structs/tpag.rs:65-89 | a `TpagEntry` is `sprite_bounds`, `unk2`, `size`, `texture_index`: 22 bytes |
| TpagSection.Take | src/file_structs/tpag.rs:13-44 | one page per pointer in order, keyed by the pointer; any page that does not fit fails the table |
| TpagSection.GetPage | src/file_structs/tpag.rs:91-95 | `get(loc)` is `None` exactly when `loc` is no pointer, else the page at its last occurrence |
| TxtrSection.TakeHeader | src/file_structs/txtr.rs:14-19 | a texture header is three words: `unk1`, `unk2` and the absolute PNG offset |
| TxtrSection.PngOffsets | src/file_structs/txtr.rs:36-40 | one view-relative offset per header followed by the view length; non-decreasing and in the view when the spans are |
| TxtrSection.Pngs | src/file_structs/txtr.rs:42-46 | PNG `k` is the bytes between offsets `k` and `k + 1` |
| TxtrSection.Entries | src/file_structs/txtr.rs:48-55 | each entry keeps its header's `unk1` and `unk2`, paired with its PNG span |
| TxtrSection.SpansConcat | src/file_structs/txtr.rs:42-46 | adjacent spans concatenate to the bytes from the first offset to the last |
| TxtrSection.PngsCoverTail | src/file_structs/txtr.rs:36-46 | with at least one texture, the PNGs together are the view from the first PNG offset to its end |
| TxtrSection.Take | src/file_structs/txtr.rs:21-66 | succeeds exactly when the header table does; one entry per header, keyed by the header pointers, holding its PNG span |
| TxtrSection.GetPng | src/file_structs/txtr.rs:68-72 | `get(loc)` is the PNG of the entry `locations` names, or `None` |
| TxtrSection.GetPngAfterTake | src/file_structs/txtr.rs:57-72 | after `take`, `get(loc)` is `None` exactly when `loc` is no header pointer, else the span starting at that header's PNG offset |
| SprtSection.TakePoint32 | src/file_structs/sprt.rs:65-67 | a `Point32` is two words |
| SprtSection.PointAfter | src/file_structs/sprt.rs:65-67 | a `Point32` read after `q` words takes words `q` and `q + 1` |
| SprtSection.TakeRect32 | src/file_structs/sprt.rs:69-71 | a `Rect32` is two `Point32`: 16 bytes |
| SprtSection.RectAfter | src/file_structs/sprt.rs:69-71 | a `Rect32` read after `q` words takes the next four |
| SprtSection.TakeHead | src/file_structs/sprt.rs:84-87 | `name_offset`, `size` and `bounds` are words 0, 1-2 and 3-6 |
| SprtSection.TakeOrigin | src/file_structs/sprt.rs:88-89 | after the five skipped words, `origin` is words 12-13 |
| SprtSection.TakeTail | src/file_structs/sprt.rs:89-92 | `origin`, `unk3` and the float count are words 12-13, 14 and 16 of the 17-word prefix |
| SprtSection.TakePrefix | src/file_structs/sprt.rs:75-93 | the 68-byte prefix in declared order |
| SprtSection.TakeThreeWords | src/file_structs/sprt.rs:97-105 | three consecutive words |
| SprtSection.ThreeWordsAfter | src/file_structs/sprt.rs:97-105 | three words read after `q` words are words `q..q+2` |
| SprtSection.TakeFloats | src/file_structs/sprt.rs:95-105 | `float_count` raw floats, then `opacity_maybe`, `unk5` and the frame count |
| SprtSection.TakeFrames | src/file_structs/sprt.rs:107 | `frame_count` tpag offsets read after `q` words |
| SprtSection.TakeBody | src/file_structs/sprt.rs:95-107 | the variable part: `|unk_floats| == float_count`, `|tpag_offsets| == frame_count`, each word at its index |
| SprtSection.TakeEntry | src/file_structs/sprt.rs:73-138 | a sprite succeeds exactly when `68 + 4 float_count + 12 + 4 frame_count` bytes fit, consuming exactly that, with `unk3` cast to `i32` |
| SprtSection.Take | src/file_structs/sprt.rs:13-44 | one sprite per pointer in order, keyed by the pointer; any sprite that does not fit fails the table |
| SprtSection.GetSprite | src/file_structs/sprt.rs:140-144 | `get(loc)` is `None` exactly when `loc` is no pointer, else the sprite at its last occurrence |
| FontSection.TakeChar | src/file_structs/font.rs:61-87 | a glyph is a `u16` character, a `Rect16` and a `Point16`: 14 bytes; a non-surrogate unit is that character |
| FontSection.CharsDecodeIff | src/file_structs/font.rs:39-47 | every glyph decodes exactly when every glyph pointer is in range with 14 bytes after it |
| FontSection.CharsDecodeUpTo | src/file_structs/font.rs:39-47 | when every glyph fits, each prefix of the glyph list decodes |
| FontSection.CharList | src/file_structs/font.rs:37 | the `char_count` glyph pointers after the 48-byte header |
| FontSection.TakeHeader | src/file_structs/font.rs:17-35 | the 12 header words in order |
| FontSection.TakeGlyphs | src/file_structs/font.rs:37-47 | one glyph per glyph pointer, in order, each relative to the view after the glyph pointers |
| FontSection.TakeFontEntry | src/file_structs/font.rs:13-59 | a font fails with `Eof` when the header is cut short; otherwise it succeeds exactly when its glyphs do |
| FontSection.FontEntryHeader | src/file_structs/font.rs:17-35 | `name`, `font_name`, `size`, `unk`, `entire_font_tpag`, `unk2`, `unk3` are header words 0-10 |
| FontSection.Take | src/file_structs/font.rs:111-135 | one font per pointer in order, keyed by the pointer; the first failing font fails the table |
| FontSection.GetFont | src/file_structs/font.rs:137-141 | `get(loc)` is `None` exactly when `loc` is no pointer, else the font at its last occurrence |
| Gen8Section.Take | src/file_structs/gen8.rs:11-20 | succeeds exactly when `len >= 0x68`, with `window_size` the words at `0x3C` and `0x40`, `game_name_offset` the word at `0x64`, and the input returned unchanged |
| Sections.RegistryDistinct | src/file_structs/mod.rs:98-110 | the eight registered magics are 4 bytes each and pairwise distinct |
| Sections.TakeGen8 | src/file_structs/mod.rs:65-74 | `_gen8`: on a framed GEN8 chunk, succeeds exactly when the body decoder does, resuming after the chunk (the body's remainder is dropped) |
| Sections.TakeStrg | src/file_structs/mod.rs:65-74 | the same for STRG |
| Sections.TakeSond | src/file_structs/mod.rs:65-74 | the same for SOND |
| Sections.TakeAudo | src/file_structs/mod.rs:65-74 | the same for AUDO |
| Sections.TakeTxtr | src/file_structs/mod.rs:65-74 | the same for TXTR |
| Sections.TakeTpag | src/file_structs/mod.rs:65-74 | the same for TPAG |
| Sections.TakeSprt | src/file_structs/mod.rs:65-74 | the same for SPRT |
| Sections.TakeFont | src/file_structs/mod.rs:65-74 | the same for FONT |
| Sections.KnownTake | src/file_structs/mod.rs:98-110 | the `k`-th registered decoder |
| Sections.TakeUnk | src/file_structs/mod.rs:47-62 | `_take_unk`: succeeds exactly on a framed chunk, keeping its 4 tag bytes and `size` payload bytes and resuming after them |
| Sections.TakeUnkFrames | src/file_structs/mod.rs:47-62 | `_take_unk` consumes the same chunk that `take_section` frames |
| Sections.TakeFrom | src/file_structs/mod.rs:77-84 | the `alt` chain from the `k`-th alternative on always consumes bytes when it succeeds and is never `Incomplete` |
| Sections.Take | src/file_structs/mod.rs:77-84 | `Section::take` consumes at least one framed chunk when it succeeds and is never `Incomplete` |
| Sections.UnknownMagicIsUnk | src/file_structs/mod.rs:77-84 | a chunk with an unregistered magic becomes `Unk` |
| Sections.UnknownFrom | src/file_structs/mod.rs:77-84 | the alternatives after the last matching magic all fall through to `Unk` |
| Sections.KnownMagicDispatch | src/file_structs/mod.rs:66-83 | a registered magic whose body decodes gives that section; one whose body fails with `Error` falls through to `Unk` |
| Sections.EarlierMissFrom | src/file_structs/mod.rs:78-83 | alternatives whose magic does not match are skipped |
| Sections.Many0Sections | src/file_structs/mod.rs:118 | `many0`: collects sections until the first failure, each consuming at least 8 bytes; the first is `Section::take` of the input |
| Sections.Many0Suffix | src/file_structs/mod.rs:118 | after `k` sections, the rest of what `many0` collects is exactly what it collects from the `k`-th chunk reached |
| Sections.Many0SuffixRest | src/file_structs/mod.rs:118 | after `k` sections, `many0` ends with the same remainder as it does from the `k`-th chunk reached |
| Sections.Many0Elements | src/file_structs/mod.rs:118 | section `k` is `Section::take` of the `k`-th chunk reached; the collection stops at the first chunk that fails, and the remainder is that chunk |
| Sections.FormBody | src/file_structs/mod.rs:113-115 | the `FORM` payload sits at position 8 and holds the declared bytes |
| Sections.TakeDataWinFile | src/file_structs/mod.rs:112-119 | section `k` of the file is `Section::take` of the `k`-th chunk of the `FORM` payload, the list ends at the first chunk that fails, and there is at most one section per 8 bytes of the declared `FORM` length |
| Sections.FormBodyExtends | src/file_structs/mod.rs:115 | appending bytes after a well-framed `FORM` keeps its payload |
| Sections.TrailingBytesIgnored | src/file_structs/mod.rs:112-119 | bytes after the declared `FORM` length do not change the section list |
| Form.AudosInSnoc | src/file_structs/mod.rs:150-152 | AUDOs found after a prefix are appended after its AUDOs |
| Form.LastPickIsLast | src/file_structs/mod.rs:153-171 | the last-writer value is absent exactly when no section of that kind occurs, and otherwise comes from one with none of its kind after it |
| Form.AbsorbSlots | src/file_structs/mod.rs:149-173 | one loop turn changes only the slot of the section's own kind; a TXTR also resets the texture slots to one per file |
| Form.AssembleFields | src/file_structs/mod.rs:145-177 | `from_sections`: every AUDO in order, the last of each other known kind, GEN8 and `Unk` dropped, and one texture slot per file of the last TXTR |
| Form.FormFile.constructor | src/file_structs/mod.rs:131-142 | `FormFile::default()`: every slot empty |
| Form.FormFile.FromSections | src/file_structs/mod.rs:145-177 | the field updates of the loop leave exactly the fold of the sections |
| Form.FormFile.TpagInfo | src/file_structs/mod.rs:190-193 | `get_tpag_info(loc)` is the `sprite_bounds` and `texture_index` of `tpag.get(loc)` |
| Form.TpagIsLastTpag | src/file_structs/mod.rs:145-177 | the TPAG that `get_tpag_info` reads is the last TPAG section of the list |
| Cursor.SeekTo | src/file_structs/helpers.rs:21-41 | `Start(p)` fails exactly when `p < base`, and otherwise sets the inner offset to `p - base` and returns `p`; `Current(r)` fails exactly when the new inner offset is out of range; a success returns inner + base |
| Cursor.ReadBytes | src/file_structs/helpers.rs:43-47 | reading exactly `n` bytes succeeds exactly when they are there, and yields them |
| Cursor.ReadWord | src/file_structs/helpers.rs:54 | `read_le::<u32>` yields the little-endian word at the inner offset |
| Cursor.ReadWords | src/file_structs/helpers.rs:55 | the `count` words from the inner offset, in order |
| Cursor.ReadEach | src/file_structs/helpers.rs:57-62 | one record per pointer in order, each read at its absolute pointer; succeeds exactly when every pointer resolves |
| Cursor.Pointers | src/file_structs/helpers.rs:54-55 | the pointer list: as many words as the count says, in order |
| Cursor.PtrListReadsEach | src/file_structs/helpers.rs:49-63 | `ptr_list` succeeds exactly when the count and pointers fit and every pointer resolves, with one record per pointer |
| Cursor.ReadEachIgnoresStart | src/file_structs/helpers.rs:57-62 | where the cursor stood before the first seek does not matter |
| Cursor.PosCursor.From | src/file_structs/helpers.rs:12-19 | base is the view's position and the inner offset is 0 |
| Cursor.PosCursor.Seek | src/file_structs/helpers.rs:21-41 | keeps `SeekTo` on the cursor state; a failed seek leaves the cursor where it was |
| Cursor.PosCursor.Read | src/file_structs/helpers.rs:43-47 | reads as many of `n` bytes as remain, and advances by that many |
| Cursor.PosCursor.ReadExact | src/file_structs/helpers.rs:43-47 | repeated `read` until `n` bytes: the bytes `ReadBytes` names, or a failure at the end of the data |
| Cursor.PosCursor.ReadU32 | src/file_structs/helpers.rs:54 | keeps `ReadWord` on the cursor state |
| Cursor.PosCursor.ReadU32s | src/file_structs/helpers.rs:55 | keeps `ReadWords` on the cursor state |
| Cursor.PosCursor.ReadLe | src/file_structs/helpers.rs:60 | keeps a record reader on the cursor state; a failed read restores the position |
| Cursor.ReadRecords | src/file_structs/helpers.rs:57-62 | the seek-then-read loop keeps `ReadEach` |
| Cursor.PtrList | src/file_structs/helpers.rs:49-63 | `ptr_list` on a cursor keeps its pure specification |
| ObjtSection.ReadEntry | src/file_structs/objt.rs:25-29 | `name_offset`, then `sprite_index`: two words, 8 bytes |
| ObjtSection.Take | src/file_structs/objt.rs:6-17 | the input unchanged and the entries on success; `Error(input, ParseTo)` on any failure |
| ObjtSection.EntriesAtPointers | src/file_structs/objt.rs:19-23 | one entry per pointer in pointer order, each read at its absolute pointer; success exactly when the list fits and every entry does |
| RoomSection.ReadColor | src/file_structs/room.rs:230-237 | 4 bytes in the order r, g, b, a |
| RoomSection.ReadSpeedUnit | src/file_structs/room.rs:239-245 | a word that must be 0 (frames per second) or 1 (frames per game frame) |
| RoomSection.ReadBackgroundLayer | src/file_structs/room.rs:103-129 | the 64-byte background layer, `gm_bool` flags, color bytes 48-51, a speed unit below 2 |
| RoomSection.ReadInstanceLayer | src/file_structs/room.rs:130-140 | the 28-byte instance layer |
| RoomSection.ReadLayerKind | src/file_structs/room.rs:100-152 | a tag of 1-4 picks Background, Instance, Tile or Path; any other tag fails |
| RoomSection.ReadLayer | src/file_structs/room.rs:92-98 | name, index, then the tagged kind |
| RoomSection.ReadBackground | src/file_structs/room.rs:159-176 | the 40-byte room background with its `gm_bool` flags |
| RoomSection.ReadView | src/file_structs/room.rs:178-194 | the 48-byte view |
| RoomSection.ReadGameObject | src/file_structs/room.rs:196-211 | the 48-byte placed object with its color at bytes 36-39 |
| RoomSection.ReadTile | src/file_structs/room.rs:213-228 | the 48-byte tile |
| RoomSection.ReadUnk2 | src/file_structs/room.rs:154-157 | records only the absolute position it stands at, consuming nothing |
| RoomSection.SubListIgnoresInner | src/file_structs/room.rs:66-79 | a sub-list read after `seek_before` does not depend on where the cursor stood |
| RoomSection.SubListAt | src/file_structs/room.rs:66-79 | an offset below the base fails the seek; otherwise it is `ptr_list` at that offset |
| RoomSection.ReadRoomEntry | src/file_structs/room.rs:23-90 | the 24 header words; the five sub-lists read by `ptr_list` at their stored offsets; `unk2` read only when `unk_pointer2 != 0`, and `has_unk2 == (unk_pointer2 != 0)` |
| RoomSection.Take | src/file_structs/room.rs:5-15 | the input unchanged and the rooms on success; `Error(input, ParseTo)` on any failure |
| RoomSection.RoomsAtPointers | src/file_structs/room.rs:17-21 | one room per pointer in pointer order, each read at its absolute pointer |
| RoomSection.Unk2PositionsArePointers | src/file_structs/room.rs:81-89 | each `Unk2` records exactly the pointer it was sought to |
| Extension.ExtensionFromMagic | src/main.rs:6-18 | "wav" exactly for `RIFF`, "ogg" exactly for `OggS`, "bin" for anything else |
| Extension.OnlyFourBytesRecognised | src/main.rs:7-17 | the whole slice is compared, so a slice of any other length is "bin" |

## Left out

- `FormFile::get_texture` and `get_tpag_subimage` (src/file_structs/mod.rs:180-200): these decode PNGs with the `image` crate behind a lazily-filled cache. The texture slots are modelled only as their count.
- UTF-8 validation of the `Unk` name and of STRG strings: both are kept as raw bytes. Invalid UTF-8 is where the source would panic.
- Floating point: every `f32` is its raw 32 bits, and no arithmetic is done on them.
- `main` in src/main.rs: file I/O, printing, directory creation and image saving. Only `extension_from_magic` is modelled.
- `form_header` is not part of this model. It is declared in src/file_structs/mod.rs but its source is not available.
- The internals of nom and binrw. `tuple` of `n` `le_u32` reads is modelled as `count(le_u32, n)`, which consumes the same bytes and propagates the same error. The binrw derives are modelled as explicit reader functions.
- The representation of a Rust sub-slice (pointer and length) is abstracted to a buffer with two bounds.
- `agrp.rs`, `objt.rs` and `room.rs` are modelled as decoders, but `mod.rs` does not declare them. They are therefore not in the section registry and not reachable from `take_data_win_file`.
- `SeekFrom::End` is `unimplemented!()` and would panic. `Cursor.SeekTo` and `Cursor.PosCursor.Seek` require a `Start` or `Current` target.
- StrgSection.Take: a pointer of 2^32 − 4 or more overflows the key `pointer + 4`. A Rust debug build panics there; the model takes the release-build wrap modulo 2^32 instead of making it a precondition. Such a pointer needs a section over 4 GiB.
- Cursor.SeekTo: requires that the `u64` position a `Current` seek returns does not overflow. A Rust debug build would panic there, and a `u32` pointer never reaches it.
- Cursor.PosCursor.ReadU32: states nothing about the cursor position after a failed read. Every caller abandons the cursor at the first failure.
- Cursor.PosCursor.ReadU32s: states nothing about the cursor position after a failed read, for the same reason.
- Cursor.ReadRecords: states nothing about the cursor position after a failure, for the same reason.
- Cursor.PtrList: states nothing about the cursor position after a failure, for the same reason.
- RoomSection.ReadUnk2: a position at or past 2^64 counts as a failed read. That cannot happen below a `u32` pointer.
- `Vec::with_capacity` and other allocation details have no observable effect and are not modelled.
- IndirectTable.Target: its contract gives only the position and length of the target view. Its bytes follow from `Offset`.
- Panics are preconditions. This covers the `FORM` `unwrap`, GEN8 slicing past the end, `offset - pos` underflow at a pointer and a lone UTF-16 surrogate in a font glyph. Because `collect` over `Result` stops at the first error, a pointer only has to be safe when every earlier record decoded.
