# fMP4 box parser — a Dafny model

This project models the core of `lib/fmp4_parser.js`, the fragmented-MP4 parser of
`@eyevinn/fmp4-js`. The file has three layers:

* **`fMP4Parser`** is a streaming reassembler. `push(chunk)` prepends the bytes kept
  from the previous call. `_parseBoxes` then walks the buffer with a cursor. Each
  complete top-level box is appended to `boxes`, and the tail of an incomplete box is
  kept for the next call.
* **`MP4Box.parse`** and the registry `MP4BoxParser` decode one box. Container boxes
  split their payload into child boxes with `_parseChildBox` and parse each child.
  The decoders of `mvhd`, `tkhd`, `mdhd`, `hdlr`, `url `, `urn `, `ftyp`/`styp`,
  `trex`, `mfhd`, `tfhd`, `trun`, `tfdt`, `sidx`, `elng`, `nmhd` and the empty boxes
  read fields at fixed or flag-driven offsets.
* **The integer and string readers** (`_read4CC`, `_readUint16` … `_readUint64`,
  `_readBit`, `_readUint3`, `_readUint28`, `_readUint31`, the fixed-point readers and
  `_readString`) sit underneath.

The model keeps JavaScript's behaviour where it matters to the result:

* `Uint8Array.slice` clamps its bounds (`Bytes.Slice`).
* A read past the end is `undefined`, and arithmetic on it gives `NaN` (`Bytes.Num`).
* `b << 32` shifts by 0, so `_readUint32` computes `b0 + b1·2^16 + b2·2^8 + b3`. It
  agrees with big-endian order only when the first byte is 0, which holds for values
  below 2^24.
* `_readUint64` computes `high·65536 + low`.
* A 1-element `Uint8Array` converts to its element.
* A child's payload is allocated with the full declared size (line 97), so it is
  zero-padded.
* A child of size 0 makes `_parseChildBox` never return, and so does a string without
  a terminating 0 in `_readString`. The first loop keeps appending to the list of
  children (line 99) and the second keeps growing the string (line 82), so a real
  engine eventually fails for lack of memory or on the maximum string length. Both
  are modelled as the outcome `Hangs`, which abstracts that failure away.

`Reassembly.Fmp4Parser` is a class with the parser's fields, and `Push` and
`ParseBoxes` are methods with the source's loop. Both are proved against
`Reassembly.ScanBoxes`, a function that states one pass of `_parseBoxes`. The
decoders are pure functions in module `BoxParser`. They are connected to writers
(`…Bytes` functions that lay a record out in ISO/IEC 14496-12 order) by round-trip
lemmas.

Where the code departs from ISO/IEC 14496-12 or from what its names suggest, the
model follows the code:

* A `RangeError` from a box that declares fewer than 8 bytes leaves the boxes already
  appended in place, and leaves the buffer cleared. The update is not atomic.
* A child box whose declared size runs past its parent is zero-padded rather than
  rejected.
* `_readUint32` adds the first byte unscaled.
* For a version-0 `mdhd`, the modification time is read as a 64-bit value from bytes
  12..20. The source tests `version === 1` there, while the other fields test
  `version === 0`. For version 1 it is the 32-bit read of bytes 8..12, which lie
  inside the 64-bit creation time.
* The `mdhd` language codes are only unpacked for version 0. For every other version
  they stay `undefined`, and each of the three characters comes out as code 0.
* Every box records a header size (`hdrsize`, line 546): 12 for the full-box types of
  `HDR_SIZE_PER_TYPE`, 8 otherwise. Nothing reads it: every payload starts 8 bytes
  after the box's start.
* The `sidx` loop never advances its position: every entry is read from offset 24.
* The `tkhd` width and height are read two bytes before the 16.16 fields of
  ISO/IEC 14496-12. The width read (bytes 74..78) gives the width's integer part when
  the matrix's last word has a zero low half. The height read (bytes 78..82) takes the
  width's fraction as its first two bytes, so it gives the height's integer part only
  when, in addition, the width has no fraction.
* `_readUint64` agrees with the big-endian value of its eight bytes exactly when the
  first five bytes are 0, so a version-1 `tfdt` decode time of 2^32 or more is misread.

## Model

| member | source | states |
|---|---|---|
| Bytes.Read4CC | lib/fmp4_parser.js:14-19 | a four-character code has four characters, whatever the input length |
| Bytes.Read4CCInverse | lib/fmp4_parser.js:14-19 | reading the bytes of a byte-sized four-character code gives the code back |
| Bytes.ReadBit | lib/fmp4_parser.js:21-24 | a bit is 0 or 1; bit 8, the only one the decoders read, is 1 exactly when the byte is at least 0x80 |
| Bytes.ReadUint3 | lib/fmp4_parser.js:26-29 | bits 4-6 are a value below 8 |
| Bytes.ReadUint16 | lib/fmp4_parser.js:31-34 | a number exactly when two bytes are present, and then below 2^16 |
| Bytes.ReadUint24 | lib/fmp4_parser.js:36-40 | a number exactly when three bytes are present, and then below 2^24 |
| Bytes.ReadUint28 | lib/fmp4_parser.js:42-45 | a number exactly when four bytes are present |
| Bytes.ReadUint31 | lib/fmp4_parser.js:47-50 | a number exactly when four bytes are present |
| Bytes.ReadUint32 | lib/fmp4_parser.js:52-57 | a number exactly when four bytes are present, and then below 2^24 + 2^8 |
| Bytes.ReadUint64 | lib/fmp4_parser.js:59-63 | a number exactly when eight bytes are present |
| Bytes.ReadUint32VersusBigEndian | lib/fmp4_parser.js:52-57 | the big-endian value exceeds the read by `b0·(2^24−1)`, so the two agree exactly when the first byte is 0 |
| Bytes.ReadUint32RoundTrip | lib/fmp4_parser.js:52-57 | a value written big-endian reads back as itself exactly when it is below 2^24 |
| Bytes.ReadUint64AgreesWhenHighWordZero | lib/fmp4_parser.js:59-63 | with the first five bytes zero, the 64-bit read is the big-endian value |
| Bytes.ReadUint64VersusBigEndian | lib/fmp4_parser.js:59-63 | for every 8 bytes, the big-endian value exceeds the 64-bit read by a sum with a positive weight on each of the first five bytes, so the two agree exactly when those five bytes are 0 |
| Bytes.FixedPoint88 | lib/fmp4_parser.js:71-76 | integer and fraction parts are the two bytes, and "0.0" for a short read |
| Bytes.CString | lib/fmp4_parser.js:78-86 | returns exactly when a 0 byte is present, and then the characters before the first 0 |
| Bytes.ReadString | lib/fmp4_parser.js:78-86 | the loop returns the string `CString` specifies |
| Boxes.HdrSize | lib/fmp4_parser.js:108-169 | the header size of a type is 12 exactly for the 60 full-box types of the table and 8 otherwise; `Reassembly.PayloadAfterEightBytes` shows it never cuts a payload |
| Boxes.Pad | lib/fmp4_parser.js:97-98 | the padded payload has the declared length and starts with the copied bytes |
| Boxes.PadAt | lib/fmp4_parser.js:97-98 | each payload byte is the copied byte, or 0 past the copy |
| BoxParser.ChildAt | lib/fmp4_parser.js:92-98 | a child carries its declared size and a payload of exactly that many bytes |
| BoxParser.Language | lib/fmp4_parser.js:248-252 | the language code has three characters |
| ChildProperties.ParseShape | lib/fmp4_parser.js:549-558 | `parse()` keeps the header, and adds a decoded record exactly when the registry has the type, equal to that decoder's result |
| ChildProperties.ChildPayload | lib/fmp4_parser.js:95-98 | the child payload is the parent's bytes after the header as far as they reach, then zeros, and its last 8 bytes are zero |
| ChildProperties.SliceAt | lib/fmp4_parser.js:98 | a clamped slice holds index k exactly when the source does, with the same byte |
| ChildProperties.ZeroSizeChildHangs | lib/fmp4_parser.js:91-100 | a child of declared size 0 makes the splitter never return |
| ChildProperties.ContainerHangs | lib/fmp4_parser.js:173-175 | a container never returns when its splitter never returns |
| ChildProperties.ChildOf | lib/fmp4_parser.js:92-98 | a written child read back has the declared size and its payload as a prefix of its data |
| ChildProperties.ChildBoxesStep | lib/fmp4_parser.js:91-100 | one loop step parses the child at `pos`, then continues at `pos + size` |
| ChildProperties.ChildBoxesStops | lib/fmp4_parser.js:91 | with at most 8 bytes left, the splitter returns no more children |
| ChildProperties.ReadBackHeaders | lib/fmp4_parser.js:88-105 | a read-back has one record per kept entry, in order, each with the entry's header |
| ChildProperties.ChildBoxesReadsFrames | lib/fmp4_parser.js:88-105 | splitting written boxes from any offset gives each box parsed, in order |
| ChildProperties.ChildBoxesReadsAllFrames | lib/fmp4_parser.js:88-105 | splitting a payload of written boxes gives each box parsed, in order, except a bare last header |
| ChildProperties.ContainerReadBack | lib/fmp4_parser.js:173-175 | a container of written boxes holds exactly their read-back, and never returns exactly when it does |
| ChildProperties.DrefReadBack | lib/fmp4_parser.js:301-303 | `dref` skips 8 bytes and holds the read-back of the boxes after them |
| ChildProperties.StsdReadBack | lib/fmp4_parser.js:325-330 | `stsd` reads the written entry count and holds the read-back of the boxes after byte 8 |
| ChildProperties.DecodeAfterHead | lib/fmp4_parser.js:301-303 | `dref` and `stsd` split their children from byte 8 on, and never return exactly when the splitter does |
| ChildProperties.NotContainers | lib/fmp4_parser.js:171-538 | `dref` and `stsd` are not among the container keys |
| DecoderProperties.BrandCount | lib/fmp4_parser.js:349-353 | the brand loop reads one code per started 4-byte step after byte 8 |
| DecoderProperties.BrandAt | lib/fmp4_parser.js:349-353 | the k-th brand is the code at offset `pos + 4k` |
| DecoderProperties.BrandsReadBack | lib/fmp4_parser.js:349-353 | written brands are read back in order |
| DecoderProperties.FileTypeRoundTrip | lib/fmp4_parser.js:345-359 | a written `ftyp` (minor version below 2^24) decodes to its major brand, minor version and brands |
| DecoderProperties.StypIsFtyp | lib/fmp4_parser.js:490-492 | `styp` decodes any payload exactly as `ftyp` does, and never loops |
| DecoderProperties.FtypExample | lib/fmp4_parser.js:345-359 | the repository's `ftyp` example payload decodes to iso6 / 0 / [iso6, dash] |
| DecoderProperties.StypPayloadDecodes | lib/fmp4_parser.js:345-359 | the repository's `styp` example payload decodes to iso6 / 0 / [iso6, msdh] |
| DecoderProperties.StypExample | lib/fmp4_parser.js:490-492 | the registry's `styp` entry returns that record for the example payload |
| DecoderProperties.LanguageRoundTrip | lib/fmp4_parser.js:248-252 | three packed 5-bit codes unpack to the characters `code + 0x60` |
| DecoderProperties.LanguageUnd | lib/fmp4_parser.js:248-260 | the codes 21, 14, 4 pack to 0x55 0xC4, which unpacks to "und" |
| DecoderProperties.MdhdOtherVersions | lib/fmp4_parser.js:241-262 | for every version other than 0 the language is three code-0 characters; for version 1 the modification time is the 32-bit read of bytes 8..12, and the creation time is the word at 4..8 scaled by 2^16 plus that modification time |
| DecoderProperties.MdhdVersion0 | lib/fmp4_parser.js:241-262 | a written version-0 `mdhd` reads back creation time, timescale, duration and language, but gives `timescale·2^16 + duration` as modification time |
| DecoderProperties.CStringReadBack | lib/fmp4_parser.js:78-86 | a 0-free string followed by 0 reads back as its characters, whatever follows |
| DecoderProperties.HdlrHangs | lib/fmp4_parser.js:264-272 | `hdlr` never returns exactly when no 0 byte follows offset 24 |
| DecoderProperties.HdlrRoundTrip | lib/fmp4_parser.js:264-272 | a written handler box decodes to its version, pre-defined word, handler type and name |
| DecoderProperties.UrlLocation | lib/fmp4_parser.js:304-310 | a self-contained `url ` gives "[local to file]"; otherwise the location is the string at offset 4, never returning without a 0 |
| DecoderProperties.ElngLanguage | lib/fmp4_parser.js:532-537 | `elng` never returns exactly when no 0 follows offset 4, and otherwise gives the string there |
| DecoderProperties.TfdtRoundTrip | lib/fmp4_parser.js:482-488 | a written decode time reads back for version 1 (64-bit) and every other version (32-bit) |
| DecoderProperties.TfdtWideTime | lib/fmp4_parser.js:482-488 | a version-1 decode time is read back exactly when its first five bytes are 0; a time of 2^32 or more is always misread |
| FragmentProperties.OptionalReadBack | lib/fmp4_parser.js:412-427 | an optional 32-bit field is read exactly when present, and the cursor moves past it |
| FragmentProperties.Optional64ReadBack | lib/fmp4_parser.js:408-411 | the same for the 64-bit base data offset |
| FragmentProperties.Uint24RoundTrip | lib/fmp4_parser.js:36-40 | a 24-bit value written big-endian reads back |
| FragmentProperties.SampleReadBack | lib/fmp4_parser.js:454-471 | a written sample reads back field by field as its flags select, and the cursor moves past it |
| FragmentProperties.SamplesLength | lib/fmp4_parser.js:452-473 | the sample loop yields exactly `sample_count` samples |
| FragmentProperties.SamplesReadBack | lib/fmp4_parser.js:452-473 | written samples read back in order |
| FragmentProperties.TrunRoundTrip | lib/fmp4_parser.js:431-475 | a written `trun` decodes to its flag booleans, sample count, optional data offset and first-sample flags, and its samples |
| FragmentProperties.TfhdRoundTrip | lib/fmp4_parser.js:395-429 | a written `tfhd` decodes to its flag booleans (including duration-is-empty and default-base-is-moof), track id and optional fields |
| FragmentProperties.TfhdExample | lib/fmp4_parser.js:395-429 | a concrete `tfhd` with flags 0x02002A decodes field by field, its default flags bytes 01 01 00 00 reading as 0x10001 rather than 0x01010000 |
| FragmentProperties.FlagsExample | lib/fmp4_parser.js:396-404 | which of the `tfhd` flag masks 0x02002A sets |
| IndexProperties.ReferenceReadBack | lib/fmp4_parser.js:507-512 | a written `sidx` reference reads back its type, size, duration, SAP bit, SAP type and SAP delta |
| IndexProperties.ReferencesRepeat | lib/fmp4_parser.js:505-521 | the reference loop yields n entries, all read from the same position |
| IndexProperties.Uint16RoundTrip | lib/fmp4_parser.js:31-34 | a 16-bit value written big-endian reads back |
| IndexProperties.SidxRoundTrip | lib/fmp4_parser.js:494-524 | a written `sidx` whose references are all equal decodes to its header fields and that reference repeated `reference_count` times |
| IndexProperties.SidxEntries | lib/fmp4_parser.js:502-522 | for any payload there are `reference_count` entries, each the reference at offset 24, and none for a payload under 24 bytes |
| IndexProperties.SidxExample | lib/fmp4_parser.js:494-524 | the repository's `sidx` example payload decodes to its header and one reference |
| IndexProperties.ExampleEntry | lib/fmp4_parser.js:507-512 | the example reference is the written form of the expected entry |
| HeaderProperties.MfhdRoundTrip | lib/fmp4_parser.js:384-389 | a written `mfhd` decodes to its version and sequence number |
| HeaderProperties.TrexRoundTrip | lib/fmp4_parser.js:369-378 | a written `trex` decodes to its version and five defaults |
| HeaderProperties.NmhdVersion | lib/fmp4_parser.js:290-295 | `nmhd` keeps the version byte, or `undefined` for an empty payload |
| HeaderProperties.UrnRoundTrip | lib/fmp4_parser.js:311-316 | a written `urn ` decodes to its version and flags, whatever follows them |
| HeaderProperties.MvhdRoundTrip | lib/fmp4_parser.js:177-195 | a written version-0 `mvhd` decodes to its times, rate, volume and next track id |
| HeaderProperties.TkhdRoundTrip | lib/fmp4_parser.js:201-223 | a written version-0 `tkhd` decodes to its header, with the flag booleans, and to width and height when the matrix's last word has a zero low half (the width read, bytes 74..78, starts there) and the width has no fraction (the height read, bytes 78..82, starts with the width's fraction) |
| HeaderProperties.IdentityFits | lib/fmp4_parser.js:219-220 | with the identity matrix, a written `tkhd` decodes back to its record |
| Reassembly.ScanFits | lib/fmp4_parser.js:598-606 | a box that fits is appended with its payload, and the pass continues after it |
| Reassembly.ScanStops | lib/fmp4_parser.js:594-603 | a box running past the end returns its bytes; a size of NaN appends an empty box and ends; a size below 8 throws |
| Reassembly.ScanKeepsPendingTail | lib/fmp4_parser.js:598-600 | the bytes a pass returns are a tail of the buffer whose size word exceeds its length, and nothing is kept unless the pass stopped for more data |
| Reassembly.ScanKeepsEveryByte | lib/fmp4_parser.js:592-607 | without an error, the appended boxes' headers and payloads, then the kept bytes, are exactly the buffer |
| Reassembly.ScanConcat | lib/fmp4_parser.js:572-608 | a buffer parsed in two pieces, the kept tail carried over, gives the boxes of one pass over the whole |
| Reassembly.ShortTailBreaksSplitInvariance | lib/fmp4_parser.js:592-607 | a split three bytes into a box breaks that: the 3-byte first piece is appended as a size-NaN box |
| Reassembly.ScanReadsFrames | lib/fmp4_parser.js:588-608 | a stream of written boxes is read back as those boxes, with nothing kept |
| Reassembly.PendingTailOfPush | lib/fmp4_parser.js:582-585 | the kept bytes after a push are a pending tail of everything pushed |
| Reassembly.PushKeepsReassembled | lib/fmp4_parser.js:572-608 | while no pass has failed, boxes and kept bytes are what one pass over the whole stream gives, and a push keeps this |
| Reassembly.PayloadAfterEightBytes | lib/fmp4_parser.js:596-604 | every box a pass appends has a header of at most 8 bytes, and its payload is the size minus 8 bytes, for full-box types too; so the payload is the size minus `HdrSize(type)` exactly for the types outside the full-box table (`hdrsize`, line 546, never cuts it); a box of size NaN gets an empty payload |
| Reassembly.Fmp4Parser.constructor | lib/fmp4_parser.js:562-566 | a new parser has size 0, no buffered data and no boxes, and is intact (no pass has failed yet) |
| Reassembly.Fmp4Parser.GetBoxes | lib/fmp4_parser.js:568-570 | while no push has thrown or ended on a 1-3 byte tail (appended as a size-NaN box and dropped), the boxes returned are exactly those of one pass over everything pushed so far |
| Reassembly.Fmp4Parser.ParseBoxes | lib/fmp4_parser.js:588-608 | the cursor loop appends exactly the boxes of `ScanBoxes`, returns the length of the kept tail, and throws exactly on a size below 8 |
| Reassembly.Fmp4Parser.Push | lib/fmp4_parser.js:572-586 | the size grows by the chunk length, the buffer becomes the tail a pass over old buffer + chunk keeps, and the boxes grow by that pass's boxes; the parser stays intact exactly when it was and this pass neither threw nor ended on a 1-3 byte tail (appended as a size-NaN box and dropped), and `Valid` (boxes and buffer are one pass over the whole stream while intact) is kept |

## Left out

- Logging (`log.debug`, line 554) and `_bytesToHex` (lines 7-12): they produce no result the parser returns.
- `parseFloat` in `_readFixedPoint1616` and `_readFixedPoint88`: the model keeps the integer and fraction parts as the `Decimal` record, without floating point.
- The `lastChunk` argument of `push` is never read by the source and is not modelled.
- Aliasing of `Uint8Array` views, and the in-place mask that `_readUint28`/`_readUint31` apply to the array they are given: every caller passes a fresh slice, so values model them.
- Bytes.ReadString: requires a 0 byte; without one the source never returns, which `CString` models as `Hangs`.
- Boxes.Writable: written boxes are limited to sizes below 2^24, where `_readUint32` agrees with big-endian order; the round trips of the decoders carry the same bound on 32-bit fields.
- HeaderProperties.MvhdRoundTrip: stated for version 0 only; version 1 uses the same 64-bit reader as `tfdt`, whose round trip covers both versions.
- HeaderProperties.TkhdRoundTrip: stated for version 0 and whole-number width and height, with the matrix's last word having a zero low half; with a fractional width the height read picks up the fraction.
- DecoderProperties.MdhdVersion0: version 1 is not given a round trip; its fields use the 64-bit reader, and `MdhdOtherVersions` states where its modification time and language come from.
- IndexProperties.SidxRoundTrip: stated for payloads whose references are all equal, because the source reads every entry from offset 24 (`IndexProperties.SidxEntries` states what any payload decodes to).
- `lib/parse_stream.js`, `index.js`, `mp4dump.js` and the example programs wrap the parser in Node.js streams and file I/O and are not part of this model.
- Determinism of `parse()` and agreement with ISO/IEC 14496-12 beyond the listed layouts are not stated.
