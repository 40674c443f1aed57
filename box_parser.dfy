/** The decoder registry `MP4BoxParser` (lib/fmp4_parser.js:171-538), the child
    splitter `_parseChildBox` (lines 88-105) and `MP4Box.parse` (lines 549-558). */
module BoxParser {
  import opened Bytes
  import opened Boxes

  /** One sample of a `trun` box: a field is present exactly when its flag is set. */
  datatype Sample = Sample(
    duration: Option<Num>,
    size: Option<Num>,
    flags: Option<Num>,
    compositionTimeOffset: Option<Num>)

  /** One entry of a `sidx` box. */
  datatype Reference = Reference(
    referenceType: nat,
    referenceSize: Num,
    subsegmentDuration: Num,
    startsWithSap: nat,
    sapType: nat,
    sapDeltaTime: Num)

  /** The record a registered decoder returns, one variant per shape. */
  datatype Decoded =
    | Container(children: seq<Parsed>)
      // moov trak mdia minf dinf stbl mvex moof traf, and dref
    | SampleDescription(children: seq<Parsed>, entryCount: Num)
    | MovieHeader(version: Num, flags: Num, creationTime: Num, modificationTime: Num,
                  timescale: Num, duration: Num, rate: Decimal, volume: Decimal,
                  nextTrackId: Num)
    | TrackHeader(version: Num, flags: Num, creationTime: Num, modificationTime: Num,
                  trackId: Num, duration: Num, trackEnabled: bool, trackInMovie: bool,
                  trackInPreview: bool, trackSizeIsAspectRatio: bool, layer: Num,
                  alternateGroup: Num, trackVolume: Num, width: Num, height: Num)
    | NoFields
      // tref edts elst vmhd smhd hmhd
    | MediaHeader(version: Num, creationTime: Num, modificationTime: Num,
                  timescale: Num, duration: Num, language: string)
    | Handler(version: Num, preDefined: Num, handlerType: string, handlerName: string)
    | NullMediaHeader(version: Num)
    | DataEntryUrl(version: Num, flags: Num, location: string)
    | DataEntryUrn(version: Num, flags: Num)
    | FileType(majorBrand: string, minorVersion: Num, compatibleBrands: seq<string>)
      // ftyp styp
    | TrackExtends(version: Num, trackId: Num, defaultSampleDescriptionIndex: Num,
                   defaultDuration: Num, defaultSize: Num, defaultFlags: Num)
    | MovieFragmentHeader(version: Num, sequenceNumber: Num)
    | TrackFragmentHeader(baseDataOffsetPresent: bool, sampleDescriptionIndexPresent: bool,
                          defaultSampleDurationPresent: bool, defaultSampleSizePresent: bool,
                          defaultSampleFlagsPresent: bool, durationIsEmpty: bool,
                          defaultBaseIsMoof: bool, trackId: Num,
                          baseDataOffset: Option<Num>, sampleDescriptionIndex: Option<Num>,
                          defaultSampleDuration: Option<Num>, defaultSampleSize: Option<Num>,
                          defaultSampleFlags: Option<Num>)
    | TrackRun(dataOffsetPresent: bool, firstSampleFlagsPresent: bool,
               sampleDurationPresent: bool, sampleSizePresent: bool,
               sampleFlagsPresent: bool, sampleCompositionTimeOffsetsPresent: bool,
               sampleCount: Num, dataOffset: Option<Num>, firstSampleFlags: Option<Num>,
               samples: seq<Sample>)
    | DecodeTime(version: Num, baseMediaDecodeTime: Num)
    | SegmentIndex(version: Num, referenceId: Num, timescale: Num,
                   earliestPresentationTime: Num, firstOffset: Num, referenceCount: Num,
                   entries: seq<Reference>)
    | ExtendedLanguage(typeTag: string, extendedLanguage: string)

  /** What `parse()` returns: the header, and the decoded record under the box's
      type when the registry has a decoder for it. */
  datatype Parsed = Parsed(hdr: Header, decoded: Option<Decoded>)

  const ContainerTypes: set<string> :=
    {"moov", "trak", "mdia", "minf", "dinf", "stbl", "mvex", "moof", "traf"}

  const NoFieldTypes: set<string> := {"tref", "edts", "elst", "vmhd", "smhd", "hmhd"}

  /** The keys of `MP4BoxParser`. */
  const DecoderTypes: set<string> := ContainerTypes + NoFieldTypes + {
    "mvhd", "tkhd", "mdhd", "hdlr", "nmhd", "dref", "url ", "urn ", "stsd",
    "ftyp", "styp", "trex", "mfhd", "tfhd", "trun", "tfdt", "sidx", "elng"
  }

  // ---------------------------------------------------------------------------
  // Termination measure.  A child's payload is zero-padded to its declared size
  // (line 97), so it can be longer than its parent's; what shrinks is the length
  // up to the last non-zero byte.

  function Weight(s: seq<byte>): (w: nat)
    ensures w <= |s|
    ensures forall i :: w <= i < |s| ==> s[i] == 0
    ensures w > 0 ==> s[w - 1] != 0
  {
    if s == [] then 0 else if s[|s| - 1] == 0 then Weight(s[..|s| - 1]) else |s|
  }

  lemma WeightAtMost(s: seq<byte>, k: nat)
    requires k <= |s|
    requires forall i :: k <= i < |s| ==> s[i] == 0
    ensures Weight(s) <= k
  {
  }

  /** A slice of `data` from `from`, zero-padded to `n` bytes, has no non-zero byte
      beyond the ones `data` has past `from`. */
  lemma WeightOfPaddedSlice(data: seq<byte>, from: nat, to: nat, n: nat)
    requires |Slice(data, from, to)| <= n
    ensures Weight(Pad(Slice(data, from, to), n)) == 0 || from + Weight(Pad(Slice(data, from, to), n)) <= Weight(data)
  {
    var s := Slice(data, from, to);
    var c := Pad(s, n);
    var w := Weight(data);
    var k := if w > from then w - from else 0;
    var k' := Min(k, n);
    forall i | k' <= i < n ensures c[i] == 0 {
      if i < |s| {
        assert c[i] == c[..|s|][i] == s[i] == data[from + i];
      }
    }
    WeightAtMost(c, k');
  }

  lemma WeightOfSuffix(data: seq<byte>, from: nat)
    ensures Weight(Slice(data, from, |data|)) <= Weight(data)
  {
    var s := Slice(data, from, |data|);
    WeightOfPaddedSlice(data, from, |data|, |s|);
    assert Pad(s, |s|) == s;
  }

  /** The box `_parseChildBox` builds at `pos` for a declared size `size`. */
  function ChildAt(data: seq<byte>, pos: nat, size: nat): (b: Box)
    ensures b.hdr.size == Int(size) && |b.data| == size
  {
    var hdr := Header(Int(size), Read4CC(Slice(data, pos + 4, pos + 8)), Slice(data, pos, pos + 8));
    Box(hdr, Pad(Slice(data, pos + 8, pos + size), size))
  }

  lemma WeightAboveNonZero(data: seq<byte>, pos: nat)
    requires pos + 4 <= |data| && ReadUint32(data[pos..pos + 4]).val > 0
    ensures Weight(data) > pos
  {
    var b := data[pos..pos + 4];
    assert b[0] != 0 || b[1] != 0 || b[2] != 0 || b[3] != 0;
  }

  /** A child's padded payload weighs less than a parent with a non-zero byte at or past `pos`. */
  lemma WeightOfPayload(data: seq<byte>, pos: nat, size: nat)
    requires Weight(data) > pos
    ensures Weight(Pad(Slice(data, pos + 8, pos + size), size)) < Weight(data)
  {
    assert |Slice(data, pos + 8, pos + size)| <= size;
    WeightOfPaddedSlice(data, pos + 8, pos + size, size);
    Below(Weight(Pad(Slice(data, pos + 8, pos + size), size)), Weight(data), pos);
  }

  lemma Below(w: nat, total: nat, pos: nat)
    requires total > pos && (w == 0 || pos + 8 + w <= total)
    ensures w < total
  {
  }

  lemma WeightOfChild(data: seq<byte>, pos: nat, size: nat)
    requires pos + 4 <= |data| && ReadUint32(data[pos..pos + 4]) == Int(size) && size > 0
    ensures Weight(ChildAt(data, pos, size).data) < Weight(data)
  {
    WeightAboveNonZero(data, pos);
    WeightOfPayload(data, pos, size);
  }

  // ---------------------------------------------------------------------------
  // parse(), the registry and the child splitter, mutually recursive.

  /** `MP4Box.parse` (lines 549-558). */
  function Parse(b: Box): Outcome<Parsed>
    decreases Weight(b.data), 2, 0
  {
    if b.hdr.boxType in DecoderTypes then
      match Decode(b.hdr.boxType, b.data)
      case Hangs => Hangs
      case Returns(d) => Returns(Parsed(b.hdr, Some(d)))
    else
      Returns(Parsed(b.hdr, None))
  }

  /** `MP4BoxParser[t](data)`. */
  function Decode(t: string, data: seq<byte>): Outcome<Decoded>
    requires t in DecoderTypes
    decreases Weight(data), 1, 0
  {
    if t in ContainerTypes then
      match ChildBoxes(data, 0)
      case Hangs => Hangs
      case Returns(cs) => Returns(Container(cs))
    else if t == "dref" then
      var rest := Slice(data, 8, |data|);
      WeightOfSuffix(data, 8);
      match ChildBoxes(rest, 0)
      case Hangs => Hangs
      case Returns(cs) => Returns(Container(cs))
    else if t == "stsd" then
      var entryCount := ReadUint32(Slice(data, 4, 8));
      var rest := Slice(data, 8, |data|);
      WeightOfSuffix(data, 8);
      match ChildBoxes(rest, 0)
      case Hangs => Hangs
      case Returns(cs) => Returns(SampleDescription(cs, entryCount))
    else
      DecodeLeaf(t, data)
  }

  /** `_parseChildBox(data)` from offset `pos` (lines 88-105): while more than 8
      bytes remain, read a child header, parse the child and step by its size.
      A size of 0 never moves `pos`, so the source never returns. */
  function ChildBoxes(data: seq<byte>, pos: nat): Outcome<seq<Parsed>>
    decreases Weight(data), 0, if pos < |data| then |data| - pos else 0
  {
    if !(pos + BoxHeaderSize < |data|) then Returns([])
    else
      var size := ReadUint32(data[pos..pos + 4]).val;
      if size == 0 then Hangs
      else
        var child := ChildAt(data, pos, size);
        WeightOfChild(data, pos, size);
        Prepend(Parse(child), ChildBoxes(data, pos + size))
  }

  /** A parsed child in front of the children after it, never returning if either
      does. */
  function Prepend(head: Outcome<Parsed>, tail: Outcome<seq<Parsed>>): (r: Outcome<seq<Parsed>>)
    ensures r.Returns? <==> head.Returns? && tail.Returns?
    ensures r.Returns? ==> r.value == [head.value] + tail.value
  {
    match head
    case Hangs => Hangs
    case Returns(p) =>
      match tail
      case Hangs => Hangs
      case Returns(ps) => Returns([p] + ps)
  }

  // ---------------------------------------------------------------------------
  // Leaf decoders.

  function DecodeLeaf(t: string, data: seq<byte>): Outcome<Decoded>
    requires t in DecoderTypes - ContainerTypes - {"dref", "stsd"}
  {
    if t in NoFieldTypes then Returns(NoFields)
    else if t == "mvhd" then Returns(DecodeMvhd(data))
    else if t == "tkhd" then Returns(DecodeTkhd(data))
    else if t == "mdhd" then Returns(DecodeMdhd(data))
    else if t == "hdlr" then DecodeHdlr(data)
    else if t == "nmhd" then Returns(NullMediaHeader(At(data, 0)))
    else if t == "url " then DecodeUrl(data)
    else if t == "urn " then Returns(DataEntryUrn(At(data, 0), ReadUint24(Slice(data, 1, 4))))
    else if t == "ftyp" || t == "styp" then Returns(DecodeFtyp(data))
    else if t == "trex" then Returns(DecodeTrex(data))
    else if t == "mfhd" then Returns(MovieFragmentHeader(At(data, 0), ReadUint32(Slice(data, 4, 8))))
    else if t == "tfhd" then Returns(DecodeTfhd(data))
    else if t == "trun" then Returns(DecodeTrun(data))
    else if t == "tfdt" then Returns(DecodeTfdt(data))
    else if t == "sidx" then Returns(DecodeSidx(data))
    else DecodeElng(data)
  }

  /** `mvhd` (lines 177-195): 32-bit times for version 0, 64-bit otherwise. */
  function DecodeMvhd(data: seq<byte>): Decoded
  {
    var version := At(data, 0);
    var v0 := version == Int(0);
    MovieHeader(
      version,
      ReadUint24(Slice(data, 1, 4)),
      if v0 then ReadUint32(Slice(data, 4, 8)) else ReadUint64(Slice(data, 4, 12)),
      if v0 then ReadUint32(Slice(data, 8, 12)) else ReadUint64(Slice(data, 12, 20)),
      if v0 then ReadUint32(Slice(data, 12, 16)) else ReadUint32(Slice(data, 20, 24)),
      if v0 then ReadUint32(Slice(data, 16, 20)) else ReadUint64(Slice(data, 24, 32)),
      if v0 then FixedPoint1616(Slice(data, 20, 24)) else FixedPoint1616(Slice(data, 32, 36)),
      if v0 then FixedPoint88(Slice(data, 24, 26)) else FixedPoint88(Slice(data, 36, 40)),
      if v0 then ReadUint32(Slice(data, 96, 100)) else ReadUint32(Slice(data, 110, 114)))
  }

  /** `tkhd` (lines 201-223). */
  function DecodeTkhd(data: seq<byte>): Decoded
  {
    var version := At(data, 0);
    var flags := ReadUint24(Slice(data, 1, 4));
    var v0 := version == Int(0);
    TrackHeader(
      version, flags,
      if v0 then ReadUint32(Slice(data, 4, 8)) else ReadUint64(Slice(data, 4, 12)),
      if v0 then ReadUint32(Slice(data, 8, 12)) else ReadUint64(Slice(data, 12, 20)),
      if v0 then ReadUint32(Slice(data, 12, 16)) else ReadUint32(Slice(data, 20, 24)),
      if v0 then ReadUint32(Slice(data, 20, 24)) else ReadUint64(Slice(data, 28, 36)),
      FlagSet(flags, 0x000001), FlagSet(flags, 0x000002),
      FlagSet(flags, 0x000004), FlagSet(flags, 0x000008),
      if v0 then ReadUint16(Slice(data, 32, 34)) else ReadUint16(Slice(data, 44, 46)),
      if v0 then ReadUint16(Slice(data, 34, 36)) else ReadUint16(Slice(data, 46, 48)),
      if v0 then ReadUint16(Slice(data, 36, 38)) else ReadUint16(Slice(data, 48, 50)),
      if v0 then ReadUint32(Slice(data, 74, 78)) else ReadUint32(Slice(data, 86, 90)),
      if v0 then ReadUint32(Slice(data, 78, 82)) else ReadUint32(Slice(data, 90, 94)))
  }

  /** The three characters of the `mdhd` language code from its two packed bytes
      (lines 248-252, 260): `(b1 >> 2) & 0x1F`, `((b1 & 0x3) << 3) | ((b2 >> 5) & 0x7)`
      and `b2 & 0x1F`, each offset by 0x60. */
  function Language(b1: byte, b2: byte): (r: string)
    ensures |r| == 3
  {
    [((b1 / 4) % 32 + 0x60) as char,
     ((b1 % 4) * 8 + (b2 / 32) % 8 + 0x60) as char,
     (b2 % 32 + 0x60) as char]
  }

  /** `mdhd` (lines 241-262).  The language is only unpacked for version 0; for any
      other version its three codes are `undefined + 0x60`, NaN, which
      `String.fromCharCode` turns into code 0.  The modification time tests for
      version 1, not version 0. */
  function DecodeMdhd(data: seq<byte>): Decoded
  {
    var version := At(data, 0);
    var v0 := version == Int(0);
    var language :=
      if v0 then Language(SingleByte(Slice(data, 20, 21)), SingleByte(Slice(data, 21, 22)))
      else [0 as char, 0 as char, 0 as char];
    MediaHeader(
      version,
      if v0 then ReadUint32(Slice(data, 4, 8)) else ReadUint64(Slice(data, 4, 12)),
      if version == Int(1) then ReadUint32(Slice(data, 8, 12)) else ReadUint64(Slice(data, 12, 20)),
      if v0 then ReadUint32(Slice(data, 12, 16)) else ReadUint32(Slice(data, 20, 24)),
      if v0 then ReadUint32(Slice(data, 16, 20)) else ReadUint64(Slice(data, 24, 32)),
      language)
  }

  /** `hdlr` (lines 264-272): the name is the 0-terminated string from offset 24. */
  function DecodeHdlr(data: seq<byte>): Outcome<Decoded>
  {
    match CString(Slice(data, 24, |data|))
    case Hangs => Hangs
    case Returns(name) =>
      Returns(Handler(At(data, 0), ReadUint32(Slice(data, 4, 8)), Read4CC(Slice(data, 8, 12)), name))
  }

  const LocalToFile: string := "[local to file]"

  /** `url ` (lines 304-310): flag bit 0 marks a self-contained entry. */
  function DecodeUrl(data: seq<byte>): Outcome<Decoded>
  {
    var flags := ReadUint24(Slice(data, 1, 4));
    if FlagSet(flags, 0x01) then Returns(DataEntryUrl(At(data, 0), flags, LocalToFile))
    else
      match CString(Slice(data, 4, |data|))
      case Hangs => Hangs
      case Returns(location) => Returns(DataEntryUrl(At(data, 0), flags, location))
  }

  /** The brand loop of `ftyp` (lines 349-353): one code per 4-byte step until
      `pos` reaches the end. */
  function Brands(data: seq<byte>, pos: nat): seq<string>
    decreases if pos < |data| then |data| - pos else 0
  {
    if pos < |data| then [Read4CC(Slice(data, pos, pos + 4))] + Brands(data, pos + 4) else []
  }

  /** `ftyp`, and `styp` which calls it (lines 345-359, 490-492). */
  function DecodeFtyp(data: seq<byte>): Decoded
  {
    FileType(Read4CC(Slice(data, 0, 4)), ReadUint32(Slice(data, 4, 8)), Brands(data, 8))
  }

  /** `trex` (lines 369-378). */
  function DecodeTrex(data: seq<byte>): Decoded
  {
    TrackExtends(At(data, 0), ReadUint32(Slice(data, 4, 8)), ReadUint32(Slice(data, 8, 12)),
                 ReadUint32(Slice(data, 12, 16)), ReadUint32(Slice(data, 16, 20)),
                 ReadUint32(Slice(data, 20, 24)))
  }

  /** An optional field of `width` bytes at `pos`, read only when `present`, and the
      position after it. */
  function Optional(data: seq<byte>, pos: nat, present: bool, width: nat): (Option<Num>, nat)
    requires width == 4 || width == 8
  {
    if !present then (None, pos)
    else if width == 8 then (Some(ReadUint64(Slice(data, pos, pos + 8))), pos + 8)
    else (Some(ReadUint32(Slice(data, pos, pos + 4))), pos + 4)
  }

  /** `tfhd` (lines 395-429). */
  function DecodeTfhd(data: seq<byte>): Decoded
  {
    var flags := ReadUint24(Slice(data, 1, 4));
    var baseDataOffsetPresent := FlagSet(flags, 0x000001);
    var sampleDescriptionIndexPresent := FlagSet(flags, 0x000002);
    var defaultSampleDurationPresent := FlagSet(flags, 0x000008);
    var defaultSampleSizePresent := FlagSet(flags, 0x000010);
    var defaultSampleFlagsPresent := FlagSet(flags, 0x000020);
    var (baseDataOffset, p1) := Optional(data, 8, baseDataOffsetPresent, 8);
    var (sampleDescriptionIndex, p2) := Optional(data, p1, sampleDescriptionIndexPresent, 4);
    var (defaultSampleDuration, p3) := Optional(data, p2, defaultSampleDurationPresent, 4);
    var (defaultSampleSize, p4) := Optional(data, p3, defaultSampleSizePresent, 4);
    var (defaultSampleFlags, _) := Optional(data, p4, defaultSampleFlagsPresent, 4);
    TrackFragmentHeader(
      baseDataOffsetPresent, sampleDescriptionIndexPresent, defaultSampleDurationPresent,
      defaultSampleSizePresent, defaultSampleFlagsPresent,
      FlagSet(flags, 0x010000), FlagSet(flags, 0x020000),
      ReadUint32(Slice(data, 4, 8)),
      baseDataOffset, sampleDescriptionIndex, defaultSampleDuration, defaultSampleSize,
      defaultSampleFlags)
  }

  /** The per-sample flags of a `trun` box. */
  datatype SampleFlags = SampleFlags(duration: bool, size: bool, flags: bool, compositionTimeOffset: bool)

  function SampleFlagsOf(flags: Num): SampleFlags
  {
    SampleFlags(FlagSet(flags, 0x000100), FlagSet(flags, 0x000200),
                FlagSet(flags, 0x000400), FlagSet(flags, 0x000800))
  }

  /** One iteration of the `trun` sample loop (lines 454-471) at `pos`: the sample
      and the position after it. */
  function SampleAt(data: seq<byte>, pos: nat, f: SampleFlags): (Sample, nat)
  {
    var (duration, p1) := Optional(data, pos, f.duration, 4);
    var (size, p2) := Optional(data, p1, f.size, 4);
    var (flags, p3) := Optional(data, p2, f.flags, 4);
    var (cto, p4) := Optional(data, p3, f.compositionTimeOffset, 4);
    (Sample(duration, size, flags, cto), p4)
  }

  /** `n` iterations of the `trun` sample loop from `pos`. */
  function Samples(data: seq<byte>, pos: nat, n: nat, f: SampleFlags): seq<Sample>
    decreases n
  {
    if n == 0 then []
    else
      var (s, next) := SampleAt(data, pos, f);
      [s] + Samples(data, next, n - 1, f)
  }

  /** How many times `for (let i = 0; i < count; i++)` runs: `i < NaN` is false. */
  function LoopCount(count: Num): nat
  {
    if count.Int? && count.val > 0 then count.val else 0
  }

  /** `trun` (lines 431-475). */
  function DecodeTrun(data: seq<byte>): Decoded
  {
    var flags := ReadUint24(Slice(data, 1, 4));
    var dataOffsetPresent := FlagSet(flags, 0x000001);
    var firstSampleFlagsPresent := FlagSet(flags, 0x000004);
    var f := SampleFlagsOf(flags);
    var sampleCount := ReadUint32(Slice(data, 4, 8));
    var (dataOffset, p1) := Optional(data, 8, dataOffsetPresent, 4);
    var (firstSampleFlags, p2) := Optional(data, p1, firstSampleFlagsPresent, 4);
    TrackRun(
      dataOffsetPresent, firstSampleFlagsPresent, f.duration, f.size, f.flags,
      f.compositionTimeOffset, sampleCount, dataOffset, firstSampleFlags,
      Samples(data, p2, LoopCount(sampleCount), f))
  }

  /** `tfdt` (lines 482-488): 64-bit for version 1, 32-bit otherwise. */
  function DecodeTfdt(data: seq<byte>): Decoded
  {
    var version := At(data, 0);
    DecodeTime(version, if version == Int(1) then ReadUint64(Slice(data, 4, 12)) else ReadUint32(Slice(data, 4, 8)))
  }

  /** One `sidx` reference decoded at `pos` (lines 507-519). */
  function ReferenceAt(data: seq<byte>, pos: nat): Reference
  {
    Reference(
      ReadBit(SingleByte(Slice(data, pos, pos + 1)), 8),
      ReadUint31(Slice(data, pos, pos + 4)),
      ReadUint32(Slice(data, pos + 4, pos + 8)),
      ReadBit(SingleByte(Slice(data, pos + 8, pos + 9)), 8),
      ReadUint3(SingleByte(Slice(data, pos + 8, pos + 9))),
      ReadUint28(Slice(data, pos + 8, pos + 12)))
  }

  /** The `sidx` reference loop (lines 505-521): the loop body never advances `pos`. */
  function References(data: seq<byte>, pos: nat, n: nat): seq<Reference>
    decreases n
  {
    if n == 0 then [] else [ReferenceAt(data, pos)] + References(data, pos, n - 1)
  }

  /** `sidx` (lines 494-524). */
  function DecodeSidx(data: seq<byte>): Decoded
  {
    var referenceCount := ReadUint16(Slice(data, 22, 24));
    SegmentIndex(
      At(data, 0), ReadUint32(Slice(data, 4, 8)), ReadUint32(Slice(data, 8, 12)),
      ReadUint32(Slice(data, 12, 16)), ReadUint32(Slice(data, 16, 20)), referenceCount,
      References(data, 24, LoopCount(referenceCount)))
  }

  /** `elng` (lines 532-537). */
  function DecodeElng(data: seq<byte>): Outcome<Decoded>
  {
    match CString(Slice(data, 4, |data|))
    case Hangs => Hangs
    case Returns(s) => Returns(ExtendedLanguage("elng", s))
  }
}
