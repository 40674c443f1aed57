/** Round trips for the fixed-layout header decoders of the registry
    `MP4BoxParser` (lib/fmp4_parser.js:171-538): `mvhd`, `tkhd`, `nmhd`, `urn `,
    `trex` and `mfhd`.  Each writes a record in the layout of ISO/IEC 14496-12
    and shows that the decoder gives the record back. */
module HeaderProperties {
  import opened Bytes
  import opened Boxes
  import opened BoxParser
  import opened FragmentProperties
  import opened IndexProperties

  // ---------------------------------------------------------------------------
  // Fields that read back exactly

  /** A 32-bit field `_readUint32` reads back from its big-endian bytes. */
  predicate Word(n: Num)
  {
    n.Int? && 0 <= n.val < 0x100_0000
  }

  /** A 16-bit field. */
  predicate Half(n: Num)
  {
    n.Int? && 0 <= n.val < 0x1_0000
  }

  /** An 8-bit field. */
  predicate Octet(n: Num)
  {
    n.Int? && 0 <= n.val < 0x100
  }

  function WordBytes(n: Num): (r: seq<byte>)
    requires Word(n)
    ensures |r| == 4
  {
    Uint32Bytes(n.val)
  }

  function HalfBytes(n: Num): (r: seq<byte>)
    requires Half(n)
    ensures |r| == 2
  {
    Uint16Bytes(n.val)
  }

  /** A 32-bit field written at `pos` is read back there. */
  lemma WordAt(data: seq<byte>, pos: nat, n: Num)
    requires Word(n) && pos + 4 <= |data| && data[pos .. pos + 4] == WordBytes(n)
    ensures ReadUint32(Slice(data, pos, pos + 4)) == n
  {
    ReadUint32RoundTrip(n.val);
  }

  /** A 16-bit field written at `pos` is read back there. */
  lemma HalfAt(data: seq<byte>, pos: nat, n: Num)
    requires Half(n) && pos + 2 <= |data| && data[pos .. pos + 2] == HalfBytes(n)
    ensures ReadUint16(Slice(data, pos, pos + 2)) == n
  {
    Uint16RoundTrip(n.val);
  }

  /** Version and flags: the first byte and the 24 bits after it. */
  lemma VersionAndFlags(data: seq<byte>, version: Num, flags: Num)
    requires Octet(version) && Word(flags) && 4 <= |data|
    requires data[0] == version.val && data[1..4] == Uint24Bytes(flags.val)
    ensures At(data, 0) == version && ReadUint24(Slice(data, 1, 4)) == flags
  {
    Uint24RoundTrip(flags.val);
  }

  // ---------------------------------------------------------------------------
  // mfhd, trex, nmhd, urn

  predicate MfhdExact(h: Decoded)
  {
    h.MovieFragmentHeader? && Octet(h.version) && Word(h.sequenceNumber)
  }

  /** An `mfhd` payload: version, zero flags, sequence number. */
  function MfhdBytes(h: Decoded): (r: seq<byte>)
    requires MfhdExact(h)
    ensures |r| == 8
  {
    [h.version.val as byte, 0, 0, 0] + WordBytes(h.sequenceNumber)
  }

  /** `mfhd` (lines 384-389) reads a written movie-fragment header back. */
  lemma MfhdRoundTrip(h: Decoded)
    requires MfhdExact(h)
    ensures DecodeLeaf("mfhd", MfhdBytes(h)) == Returns(h)
  {
    var data := MfhdBytes(h);
    WordAt(data, 4, h.sequenceNumber);
  }

  predicate TrexExact(h: Decoded)
  {
    h.TrackExtends? && Octet(h.version) && Word(h.trackId)
    && Word(h.defaultSampleDescriptionIndex) && Word(h.defaultDuration)
    && Word(h.defaultSize) && Word(h.defaultFlags)
  }

  /** A `trex` payload: version, zero flags, then five 32-bit fields. */
  function TrexBytes(h: Decoded): (r: seq<byte>)
    requires TrexExact(h)
    ensures |r| == 24
  {
    [h.version.val as byte, 0, 0, 0] + WordBytes(h.trackId)
    + WordBytes(h.defaultSampleDescriptionIndex) + WordBytes(h.defaultDuration)
    + WordBytes(h.defaultSize) + WordBytes(h.defaultFlags)
  }

  /** `trex` (lines 369-378) reads written track defaults back. */
  lemma TrexRoundTrip(h: Decoded)
    requires TrexExact(h)
    ensures DecodeTrex(TrexBytes(h)) == h
  {
    var data := TrexBytes(h);
    TrexWords(data, h);
    WordAt(data, 4, h.trackId);
    WordAt(data, 8, h.defaultSampleDescriptionIndex);
    WordAt(data, 12, h.defaultDuration);
    WordAt(data, 16, h.defaultSize);
    WordAt(data, 20, h.defaultFlags);
  }

  lemma TrexWords(data: seq<byte>, h: Decoded)
    requires TrexExact(h) && data == TrexBytes(h)
    ensures data[4..8] == WordBytes(h.trackId)
    ensures data[8..12] == WordBytes(h.defaultSampleDescriptionIndex)
    ensures data[12..16] == WordBytes(h.defaultDuration)
    ensures data[16..20] == WordBytes(h.defaultSize)
    ensures data[20..24] == WordBytes(h.defaultFlags)
  {
  }

  /** `nmhd` (lines 290-295) keeps the version byte and nothing else; an empty
      payload gives `undefined`. */
  lemma NmhdVersion(data: seq<byte>)
    ensures DecodeLeaf("nmhd", data) == Returns(NullMediaHeader(if data == [] then Undefined else Int(data[0])))
  {
  }

  /** `urn ` (lines 311-316) reads a written version and flags back and ignores
      the name and location that follow them. */
  lemma UrnRoundTrip(version: byte, flags: nat, rest: seq<byte>)
    requires flags < 0x100_0000
    ensures DecodeLeaf("urn ", [version] + Uint24Bytes(flags) + rest) == Returns(DataEntryUrn(Int(version), Int(flags)))
  {
    var data := [version] + Uint24Bytes(flags) + rest;
    VersionAndFlags(data, Int(version), Int(flags));
  }

  // ---------------------------------------------------------------------------
  // mvhd

  predicate MvhdExact(h: Decoded)
  {
    h.MovieHeader? && h.version == Int(0) && Word(h.flags)
    && Word(h.creationTime) && Word(h.modificationTime) && Word(h.timescale) && Word(h.duration)
    && Half(h.rate.intPart) && Half(h.rate.fracPart)
    && Octet(h.volume.intPart) && Octet(h.volume.fracPart)
    && Word(h.nextTrackId)
  }

  /** A version-0 `mvhd` payload: version and flags, four 32-bit times, the 16.16
      rate, the 8.8 volume, 70 reserved bytes (reserved words, matrix, pre-defined
      words) and the next track id. */
  function MvhdBytes(h: Decoded): (r: seq<byte>)
    requires MvhdExact(h)
    ensures |r| == 100
  {
    [0] + Uint24Bytes(h.flags.val)
    + WordBytes(h.creationTime) + WordBytes(h.modificationTime)
    + WordBytes(h.timescale) + WordBytes(h.duration)
    + HalfBytes(h.rate.intPart) + HalfBytes(h.rate.fracPart)
    + [h.volume.intPart.val as byte, h.volume.fracPart.val as byte]
    + Zeros(70) + WordBytes(h.nextTrackId)
  }

  /** `mvhd` (lines 177-195) reads a written version-0 movie header back. */
  lemma MvhdRoundTrip(h: Decoded)
    requires MvhdExact(h)
    ensures DecodeMvhd(MvhdBytes(h)) == h
  {
    var data := MvhdBytes(h);
    MvhdWords(data, h);
    VersionAndFlags(data, h.version, h.flags);
    WordAt(data, 4, h.creationTime);
    WordAt(data, 8, h.modificationTime);
    WordAt(data, 12, h.timescale);
    WordAt(data, 16, h.duration);
    var rate := Slice(data, 20, 24);
    assert rate == data[20..24] && rate[0..2] == data[20..22] && rate[2..4] == data[22..24];
    HalfAt(rate, 0, h.rate.intPart);
    HalfAt(rate, 2, h.rate.fracPart);
    WordAt(data, 96, h.nextTrackId);
  }

  lemma MvhdWords(data: seq<byte>, h: Decoded)
    requires MvhdExact(h) && data == MvhdBytes(h)
    ensures data[0] == 0 && data[1..4] == Uint24Bytes(h.flags.val)
    ensures data[4..8] == WordBytes(h.creationTime) && data[8..12] == WordBytes(h.modificationTime)
    ensures data[12..16] == WordBytes(h.timescale) && data[16..20] == WordBytes(h.duration)
    ensures data[20..22] == HalfBytes(h.rate.intPart) && data[22..24] == HalfBytes(h.rate.fracPart)
    ensures Slice(data, 24, 26) == [h.volume.intPart.val as byte, h.volume.fracPart.val as byte]
    ensures data[96..100] == WordBytes(h.nextTrackId)
  {
    assert Slice(data, 24, 26) == data[24..26];
  }

  // ---------------------------------------------------------------------------
  // tkhd

  /** A version-0 track header record the decoder can give back: the four flag
      booleans agree with the flag bits, and width and height are whole numbers
      below 2^16. */
  predicate TkhdExact(h: Decoded)
  {
    h.TrackHeader? && h.version == Int(0) && Word(h.flags)
    && Word(h.creationTime) && Word(h.modificationTime) && Word(h.trackId) && Word(h.duration)
    && h.trackEnabled == FlagSet(h.flags, 0x000001)
    && h.trackInMovie == FlagSet(h.flags, 0x000002)
    && h.trackInPreview == FlagSet(h.flags, 0x000004)
    && h.trackSizeIsAspectRatio == FlagSet(h.flags, 0x000008)
    && Half(h.layer) && Half(h.alternateGroup) && Half(h.trackVolume)
    && Half(h.width) && Half(h.height)
  }

  /** A version-0 `tkhd` payload in the layout of ISO/IEC 14496-12 (section 8.3.2):
      the 38-byte head, 16 reserved bits, the 36-byte matrix `m`, then width and
      height. */
  function TkhdBytes(h: Decoded, m: seq<byte>): (r: seq<byte>)
    requires TkhdExact(h) && |m| == 36
    ensures |r| == 84
  {
    TkhdHead(h) + Zeros(2) + m + TkhdSize(h)
  }

  /** Version and flags, creation and modification time, track id, a reserved
      word, duration, two reserved words, layer, alternate group and volume. */
  function TkhdHead(h: Decoded): (r: seq<byte>)
    requires TkhdExact(h)
    ensures |r| == 38
  {
    [0] + Uint24Bytes(h.flags.val)
    + WordBytes(h.creationTime) + WordBytes(h.modificationTime)
    + WordBytes(h.trackId) + Zeros(4) + WordBytes(h.duration) + Zeros(8)
    + HalfBytes(h.layer) + HalfBytes(h.alternateGroup) + HalfBytes(h.trackVolume)
  }

  /** Width and height as 16.16 fixed-point numbers with a zero fraction. */
  function TkhdSize(h: Decoded): (r: seq<byte>)
    requires TkhdExact(h)
    ensures |r| == 8
  {
    HalfBytes(h.width) + [0, 0] + HalfBytes(h.height) + [0, 0]
  }

  /** The identity matrix of ISO/IEC 14496-12, nine big-endian words; its last
      word, 0x40000000, has a zero low half. */
  const Identity: seq<byte> := [
    0x00, 0x01, 0x00, 0x00,  0x00, 0x00, 0x00, 0x00,  0x00, 0x00, 0x00, 0x00,
    0x00, 0x00, 0x00, 0x00,  0x00, 0x01, 0x00, 0x00,  0x00, 0x00, 0x00, 0x00,
    0x00, 0x00, 0x00, 0x00,  0x00, 0x00, 0x00, 0x00,  0x40, 0x00, 0x00, 0x00]

  /** `tkhd` (lines 201-223) reads width and height at bytes 74 and 78 of a
      version-0 payload, two bytes before the fixed-point fields.  When the
      matrix's last word has a zero low half, as the identity matrix does, and
      the width has no fraction, those reads give the integer parts of width and
      height, and the whole record comes back. */
  lemma TkhdRoundTrip(h: Decoded, m: seq<byte>)
    requires TkhdExact(h) && |m| == 36 && m[34] == 0 && m[35] == 0
    ensures DecodeTkhd(TkhdBytes(h, m)) == h
  {
    var data := TkhdBytes(h, m);
    TkhdWords(data, h, m);
    VersionAndFlags(data, h.version, h.flags);
    WordAt(data, 4, h.creationTime);
    WordAt(data, 8, h.modificationTime);
    WordAt(data, 12, h.trackId);
    WordAt(data, 20, h.duration);
    HalfAt(data, 32, h.layer);
    HalfAt(data, 34, h.alternateGroup);
    HalfAt(data, 36, h.trackVolume);
    HalfBehindZeros(data, 74, h.width);
    HalfBehindZeros(data, 78, h.height);
  }

  /** The identity matrix fits `TkhdRoundTrip`. */
  lemma IdentityFits(h: Decoded)
    requires TkhdExact(h)
    ensures DecodeTkhd(TkhdBytes(h, Identity)) == h
  {
    TkhdRoundTrip(h, Identity);
  }

  lemma TkhdWords(data: seq<byte>, h: Decoded, m: seq<byte>)
    requires TkhdExact(h) && |m| == 36 && m[34] == 0 && m[35] == 0 && data == TkhdBytes(h, m)
    ensures data[0] == 0 && data[1..4] == Uint24Bytes(h.flags.val)
    ensures data[4..8] == WordBytes(h.creationTime) && data[8..12] == WordBytes(h.modificationTime)
    ensures data[12..16] == WordBytes(h.trackId) && data[20..24] == WordBytes(h.duration)
    ensures data[32..34] == HalfBytes(h.layer) && data[34..36] == HalfBytes(h.alternateGroup)
    ensures data[36..38] == HalfBytes(h.trackVolume)
    ensures data[74] == 0 && data[75] == 0 && data[76..78] == HalfBytes(h.width)
    ensures data[78] == 0 && data[79] == 0 && data[80..82] == HalfBytes(h.height)
  {
    var head := TkhdHead(h);
    var size := TkhdSize(h);
    TkhdHeadWords(head, h);
    assert data[..38] == head;
    assert data[74] == m[34] && data[75] == m[35];
    assert data[76..] == size;
    TkhdSizeWords(size, h);
  }

  lemma TkhdHeadWords(head: seq<byte>, h: Decoded)
    requires TkhdExact(h) && head == TkhdHead(h)
    ensures head[0] == 0 && head[1..4] == Uint24Bytes(h.flags.val)
    ensures head[4..8] == WordBytes(h.creationTime) && head[8..12] == WordBytes(h.modificationTime)
    ensures head[12..16] == WordBytes(h.trackId) && head[20..24] == WordBytes(h.duration)
    ensures head[32..34] == HalfBytes(h.layer) && head[34..36] == HalfBytes(h.alternateGroup)
    ensures head[36..38] == HalfBytes(h.trackVolume)
  {
  }

  lemma TkhdSizeWords(size: seq<byte>, h: Decoded)
    requires TkhdExact(h) && size == TkhdSize(h)
    ensures size[..2] == HalfBytes(h.width) && size[2] == 0 && size[3] == 0
    ensures size[4..6] == HalfBytes(h.height) && size[6] == 0 && size[7] == 0
  {
  }

  /** Two zero bytes and a 16-bit field, read as a `_readUint32` word, give the field. */
  lemma HalfBehindZeros(data: seq<byte>, pos: nat, n: Num)
    requires Half(n) && pos + 4 <= |data|
    requires data[pos] == 0 && data[pos + 1] == 0 && data[pos + 2 .. pos + 4] == HalfBytes(n)
    ensures ReadUint32(Slice(data, pos, pos + 4)) == n
  {
    Uint16RoundTrip(n.val);
  }
}
