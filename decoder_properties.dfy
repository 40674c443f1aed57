/** Properties of the decoders of the registry `MP4BoxParser`
    (lib/fmp4_parser.js:171-538): where each one reads its fields, what the
    brand and reference loops return, and the values the repository's own
    example payloads decode to. */
module DecoderProperties {
  import opened Bytes
  import opened BoxParser

  // ---------------------------------------------------------------------------
  // ftyp and styp

  /** A four-character code every character of which fits a byte. */
  ghost predicate ByteCode(t: string)
  {
    |t| == 4 && forall i :: 0 <= i < 4 ==> t[i] as int < 0x100
  }

  /** Every code of a list fits bytes. */
  ghost predicate ByteCodes(bs: seq<string>)
  {
    forall i :: 0 <= i < |bs| ==> ByteCode(bs[i])
  }

  /** The brand loop reads one code per 4-byte step from `pos`, the last one
      possibly short. */
  lemma {:induction false} BrandCount(data: seq<byte>, pos: nat)
    ensures |Brands(data, pos)| == if pos < |data| then (|data| - pos + 3) / 4 else 0
    decreases if pos < |data| then |data| - pos else 0
  {
    if pos < |data| {
      BrandCount(data, pos + 4);
    }
  }

  /** Brand `k` of the loop is the code at `pos + 4 * k`. */
  lemma {:induction false} BrandAt(data: seq<byte>, pos: nat, k: nat)
    requires k < |Brands(data, pos)|
    ensures Brands(data, pos)[k] == Read4CC(Slice(data, pos + 4 * k, pos + 4 * k + 4))
    decreases k
  {
    if k > 0 {
      BrandAt(data, pos + 4, k - 1);
      CodeAtSame(data, pos + 4 + 4 * (k - 1), pos + 4 * k);
    }
  }

  lemma CodeAtSame(data: seq<byte>, i: nat, j: nat)
    requires i == j
    ensures Read4CC(Slice(data, i, i + 4)) == Read4CC(Slice(data, j, j + 4))
  {
  }

  /** The bytes of a list of brands, one code after another. */
  function BrandBytes(bs: seq<string>): (r: seq<byte>)
    requires ByteCodes(bs)
    ensures |r| == 4 * |bs|
  {
    if bs == [] then []
    else
      assert ByteCode(bs[0]) && ByteCodes(bs[1..]) by { assert forall i :: 0 <= i < |bs| - 1 ==> bs[1..][i] == bs[i + 1]; }
      FourCCBytes(bs[0]) + BrandBytes(bs[1..])
  }

  /** The brand loop reads written brands back. */
  lemma {:induction false} BrandsReadBack(data: seq<byte>, pos: nat, bs: seq<string>)
    requires ByteCodes(bs)
    requires pos <= |data| && data[pos..] == BrandBytes(bs)
    ensures Brands(data, pos) == bs
    decreases |bs|
  {
    if bs != [] {
      assert ByteCode(bs[0]) && ByteCodes(bs[1..]) by { assert forall i :: 0 <= i < |bs| - 1 ==> bs[1..][i] == bs[i + 1]; }
      assert Slice(data, pos, pos + 4) == data[pos..][..4] == FourCCBytes(bs[0]);
      Read4CCInverse(bs[0]);
      assert data[pos + 4..] == data[pos..][4..] == BrandBytes(bs[1..]);
      BrandsReadBack(data, pos + 4, bs[1..]);
    }
  }

  /** The payload of an `ftyp` or `styp` box: major brand, minor version, brands. */
  function FileTypeBytes(major: string, minor: nat, bs: seq<string>): (r: seq<byte>)
    requires ByteCode(major) && minor < 0x1_0000_0000 && ByteCodes(bs)
    ensures |r| == 8 + 4 * |bs|
  {
    FourCCBytes(major) + Uint32Bytes(minor) + BrandBytes(bs)
  }

  /** `ftyp` reads a written payload back: the major brand from bytes 0..4, the
      minor version from 4..8 (exact below 2^24, where `_readUint32` is
      big-endian) and one compatible brand per 4 bytes after that. */
  lemma FileTypeRoundTrip(major: string, minor: nat, bs: seq<string>)
    requires ByteCode(major) && minor < 0x100_0000 && ByteCodes(bs)
    ensures DecodeFtyp(FileTypeBytes(major, minor, bs)) == FileType(major, Int(minor), bs)
  {
    var data := FileTypeBytes(major, minor, bs);
    assert Slice(data, 0, 4) == FourCCBytes(major);
    Read4CCInverse(major);
    assert Slice(data, 4, 8) == Uint32Bytes(minor);
    ReadUint32RoundTrip(minor);
    assert data[8..] == BrandBytes(bs);
    BrandsReadBack(data, 8, bs);
  }

  /** `styp` is decoded by the `ftyp` decoder. */
  lemma StypIsFtyp(data: seq<byte>)
    ensures DecodeLeaf("styp", data) == DecodeLeaf("ftyp", data) == Returns(DecodeFtyp(data))
  {
  }

  /** The `ftyp` payload of the repository's example: major brand `iso6`, minor
      version 0, brands `iso6` and `dash`. */
  const FtypPayload: seq<byte> := [0x69, 0x73, 0x6f, 0x36, 0, 0, 0, 0, 0x69, 0x73, 0x6f, 0x36, 0x64, 0x61, 0x73, 0x68]

  /** The `styp` payload of the repository's example: brands `iso6` and `msdh`. */
  const StypPayload: seq<byte> := [0x69, 0x73, 0x6f, 0x36, 0, 0, 0, 0, 0x69, 0x73, 0x6f, 0x36, 0x6d, 0x73, 0x64, 0x68]

  lemma FtypExample()
    ensures DecodeFtyp(FtypPayload) == FileType("iso6", Int(0), ["iso6", "dash"])
  {
    assert FileTypeBytes("iso6", 0, ["iso6", "dash"]) == FtypPayload;
    FileTypeRoundTrip("iso6", 0, ["iso6", "dash"]);
  }

  lemma StypPayloadDecodes()
    ensures DecodeFtyp(StypPayload) == FileType("iso6", Int(0), ["iso6", "msdh"])
  {
    assert FileTypeBytes("iso6", 0, ["iso6", "msdh"]) == StypPayload;
    FileTypeRoundTrip("iso6", 0, ["iso6", "msdh"]);
  }

  lemma StypExample()
    ensures DecodeLeaf("styp", StypPayload) == Returns(FileType("iso6", Int(0), ["iso6", "msdh"]))
  {
    StypPayloadDecodes();
    StypIsFtyp(StypPayload);
  }

  // ---------------------------------------------------------------------------
  // mdhd

  /** The two language bytes of a version-0 `mdhd`: a zero pad bit, then three
      5-bit codes. */
  function LanguageBytes(c1: nat, c2: nat, c3: nat): (r: (byte, byte))
    requires c1 < 32 && c2 < 32 && c3 < 32
  {
    (c1 * 4 + c2 / 8, (c2 % 8) * 32 + c3)
  }

  /** The language unpacking reads written codes back, each offset by 0x60. */
  lemma LanguageRoundTrip(c1: nat, c2: nat, c3: nat)
    requires c1 < 32 && c2 < 32 && c3 < 32
    ensures Language(LanguageBytes(c1, c2, c3).0, LanguageBytes(c1, c2, c3).1)
            == [(c1 + 0x60) as char, (c2 + 0x60) as char, (c3 + 0x60) as char]
  {
    var b1, b2 := c1 * 4 + c2 / 8, (c2 % 8) * 32 + c3;
    assert b1 / 4 == c1 && b1 % 4 == c2 / 8;
    assert b2 / 32 == c2 % 8 && b2 % 32 == c3;
    assert (c2 / 8) * 8 + c2 % 8 == c2;
  }

  /** The bytes 0x55 0xC4 spell `und`, the undetermined language (codes 21, 14, 4). */
  lemma LanguageUnd()
    ensures LanguageBytes(21, 14, 4) == (0x55, 0xC4)
    ensures Language(0x55, 0xC4) == "und"
  {
    LanguageRoundTrip(21, 14, 4);
  }

  /** A version-0 `mdhd` payload: version and flags, then 32-bit creation time,
      modification time, timescale and duration, the language and 16 pad bits. */
  function MdhdBytes(creation: nat, modification: nat, timescale: nat, duration: nat,
                     c1: nat, c2: nat, c3: nat): (r: seq<byte>)
    requires creation < 0x1_0000_0000 && modification < 0x1_0000_0000
    requires timescale < 0x1_0000_0000 && duration < 0x1_0000_0000
    requires c1 < 32 && c2 < 32 && c3 < 32
    ensures |r| == 24
  {
    [0, 0, 0, 0] + Uint32Bytes(creation) + Uint32Bytes(modification) + Uint32Bytes(timescale)
    + Uint32Bytes(duration) + [LanguageBytes(c1, c2, c3).0, LanguageBytes(c1, c2, c3).1, 0, 0]
  }

  /** A version-0 `mdhd` reads back its creation time, timescale, duration and
      language, but its modification time is the 64-bit read of bytes 12..20,
      timescale and duration (`_readUint64` scales the high word by 2^16): the
      source tests `version === 1` where the other fields test `version === 0`. */
  lemma MdhdVersion0(creation: nat, modification: nat, timescale: nat, duration: nat,
                     c1: nat, c2: nat, c3: nat)
    requires creation < 0x100_0000 && modification < 0x100_0000
    requires timescale < 0x100_0000 && duration < 0x100_0000
    requires c1 < 32 && c2 < 32 && c3 < 32
    ensures DecodeMdhd(MdhdBytes(creation, modification, timescale, duration, c1, c2, c3))
            == MediaHeader(Int(0), Int(creation), Int(timescale * 0x1_0000 + duration), Int(timescale),
                           Int(duration), [(c1 + 0x60) as char, (c2 + 0x60) as char, (c3 + 0x60) as char])
  {
    var data := MdhdBytes(creation, modification, timescale, duration, c1, c2, c3);
    MdhdWords(data, creation, modification, timescale, duration, c1, c2, c3);
    ReadUint32RoundTrip(creation);
    ReadUint32RoundTrip(timescale);
    ReadUint32RoundTrip(duration);
    LanguageRoundTrip(c1, c2, c3);
  }

  /** For every version other than 0 the language codes are never set, so each of
      its three characters is code 0.  For version 1 the modification time is the
      32-bit read of bytes 8..12, which lie inside the 64-bit creation time: that
      time is the word at 4..8 scaled by 2^16 plus the modification time. */
  lemma MdhdOtherVersions(data: seq<byte>)
    requires At(data, 0) != Int(0)
    ensures DecodeMdhd(data).language == [0 as char, 0 as char, 0 as char]
    ensures At(data, 0) == Int(1) ==> DecodeMdhd(data).modificationTime == ReadUint32(Slice(data, 8, 12))
    ensures At(data, 0) == Int(1) && |data| >= 12 ==>
            DecodeMdhd(data).creationTime.val
            == ReadUint32(Slice(data, 4, 8)).val * 0x1_0000 + DecodeMdhd(data).modificationTime.val
  {
    if |data| >= 12 {
      assert Slice(Slice(data, 4, 12), 0, 4) == Slice(data, 4, 8);
      assert Slice(Slice(data, 4, 12), 4, 8) == Slice(data, 8, 12);
    }
  }

  lemma MdhdWords(data: seq<byte>, creation: nat, modification: nat, timescale: nat, duration: nat,
                  c1: nat, c2: nat, c3: nat)
    requires creation < 0x100_0000 && modification < 0x100_0000
    requires timescale < 0x100_0000 && duration < 0x100_0000
    requires c1 < 32 && c2 < 32 && c3 < 32
    requires data == MdhdBytes(creation, modification, timescale, duration, c1, c2, c3)
    ensures At(data, 0) == Int(0)
    ensures Slice(data, 4, 8) == Uint32Bytes(creation)
    ensures Slice(data, 12, 16) == Uint32Bytes(timescale)
    ensures Slice(data, 16, 20) == Uint32Bytes(duration)
    ensures Slice(Slice(data, 12, 20), 0, 4) == Uint32Bytes(timescale)
    ensures Slice(Slice(data, 12, 20), 4, 8) == Uint32Bytes(duration)
    ensures SingleByte(Slice(data, 20, 21)) == LanguageBytes(c1, c2, c3).0
    ensures SingleByte(Slice(data, 21, 22)) == LanguageBytes(c1, c2, c3).1
  {
    assert Slice(data, 12, 20) == data[12..20];
    assert Slice(data, 20, 21) == [data[20]];
    assert Slice(data, 21, 22) == [data[21]];
  }

  // ---------------------------------------------------------------------------
  // 0-terminated strings: hdlr, url, elng

  /** The characters of a byte string, one per byte. */
  function Chars(s: seq<byte>): (r: string)
    ensures |r| == |s| && forall k :: 0 <= k < |s| ==> r[k] == CharOf(s[k])
  {
    seq(|s|, k requires 0 <= k < |s| => CharOf(s[k]))
  }

  /** `_readString` reads a written string back up to its terminating 0 byte,
      whatever follows. */
  lemma CStringReadBack(s: seq<byte>, rest: seq<byte>)
    requires 0 !in s
    ensures CString(s + [0] + rest) == Returns(Chars(s))
  {
    var b := s + [0] + rest;
    assert b[|s|] == 0 && b[|s|] in b;
    var r := CString(b);
    assert forall k :: 0 <= k < |s| ==> b[k] == s[k] && s[k] in s;
    assert |r.value| == |s|;
    assert forall k :: 0 <= k < |s| ==> r.value[k] == Chars(s)[k];
    assert r.value == Chars(s);
  }

  /** The `hdlr` decoder never returns exactly when no 0 byte follows offset 24. */
  lemma HdlrHangs(data: seq<byte>)
    ensures DecodeHdlr(data).Hangs? <==> 0 !in Slice(data, 24, |data|)
  {
  }

  /** A `hdlr` payload: version, zero flags, `pre_defined`, the handler type, 12
      reserved bytes, then the name and its terminating 0. */
  function HdlrBytes(version: byte, preDefined: nat, handlerType: string, name: seq<byte>): (r: seq<byte>)
    requires preDefined < 0x1_0000_0000 && ByteCode(handlerType)
  {
    [version, 0, 0, 0] + Uint32Bytes(preDefined) + FourCCBytes(handlerType) + Zeros12() + (name + [0])
  }

  function Zeros12(): (r: seq<byte>)
    ensures |r| == 12
  {
    [0, 0, 0, 0, 0, 0, 0, 0, 0, 0, 0, 0]
  }

  /** `hdlr` reads a written payload back: its version, `pre_defined` (below 2^24),
      handler type and name. */
  lemma HdlrRoundTrip(version: byte, preDefined: nat, handlerType: string, name: seq<byte>)
    requires preDefined < 0x100_0000 && ByteCode(handlerType) && 0 !in name
    ensures DecodeHdlr(HdlrBytes(version, preDefined, handlerType, name))
            == Returns(Handler(Int(version), Int(preDefined), handlerType, Chars(name)))
  {
    var data := HdlrBytes(version, preDefined, handlerType, name);
    assert Slice(data, 4, 8) == Uint32Bytes(preDefined);
    ReadUint32RoundTrip(preDefined);
    assert Slice(data, 8, 12) == FourCCBytes(handlerType);
    Read4CCInverse(handlerType);
    assert Slice(data, 24, |data|) == name + [0] + [];
    CStringReadBack(name, []);
  }

  /** A `url ` entry with flag bit 0 set is self-contained: its location is
      `[local to file]` and no string is read.  Without the flag the location is
      the 0-terminated string from offset 4, and the decoder never returns when
      there is none. */
  lemma UrlLocation(data: seq<byte>)
    ensures FlagSet(ReadUint24(Slice(data, 1, 4)), 0x01) ==> DecodeUrl(data).Returns? && DecodeUrl(data).value.location == LocalToFile
    ensures !FlagSet(ReadUint24(Slice(data, 1, 4)), 0x01) ==>
              (DecodeUrl(data).Hangs? <==> 0 !in Slice(data, 4, |data|))
              && (DecodeUrl(data).Returns? ==> Returns(DecodeUrl(data).value.location) == CString(Slice(data, 4, |data|)))
  {
  }

  /** `elng` reads the 0-terminated language tag from offset 4. */
  lemma ElngLanguage(data: seq<byte>)
    ensures DecodeElng(data).Hangs? <==> 0 !in Slice(data, 4, |data|)
    ensures DecodeElng(data).Returns? ==> Returns(DecodeElng(data).value.extendedLanguage) == CString(Slice(data, 4, |data|))
  {
  }

  // ---------------------------------------------------------------------------
  // tfdt

  /** A `tfdt` payload: the version, zero flags, then the decode time, 64 bits
      wide (zero high word) for version 1 and 32 bits otherwise. */
  function TfdtBytes(version: byte, time: nat): (r: seq<byte>)
    requires time < 0x1_0000_0000
  {
    [version, 0, 0, 0] + (if version == 1 then [0, 0, 0, 0] else []) + Uint32Bytes(time)
  }

  /** `tfdt` reads a written decode time back for either version. */
  lemma TfdtRoundTrip(version: byte, time: nat)
    requires time < 0x100_0000
    ensures DecodeTfdt(TfdtBytes(version, time)) == DecodeTime(Int(version), Int(time))
  {
    var data := TfdtBytes(version, time);
    ReadUint32RoundTrip(time);
    if version == 1 {
      var w := Slice(data, 4, 12);
      assert w == [0, 0, 0, 0] + Uint32Bytes(time);
      assert Slice(w, 0, 4) == [0, 0, 0, 0];
      assert Slice(w, 4, 8) == Uint32Bytes(time);
    } else {
      assert Slice(data, 4, 8) == Uint32Bytes(time);
    }
  }

  /** A version-1 `tfdt` time is read back exactly when its first five bytes are
      0; in particular a decode time of 2^32 or more never comes back as written. */
  lemma {:induction false} TfdtWideTime(time: seq<byte>)
    requires |time| == 8
    ensures DecodeTfdt([1, 0, 0, 0] + time) == DecodeTime(Int(1), ReadUint64(time))
    ensures DecodeTfdt([1, 0, 0, 0] + time).baseMediaDecodeTime == Int(BigEndian(time))
            <==> time[0] == time[1] == time[2] == time[3] == time[4] == 0
    ensures BigEndian(time) >= 0x1_0000_0000
            ==> DecodeTfdt([1, 0, 0, 0] + time).baseMediaDecodeTime != Int(BigEndian(time))
  {
    var data := [1, 0, 0, 0] + time;
    assert Slice(data, 0, 4) == [1, 0, 0, 0];
    assert Slice(data, 4, 12) == time;
    ReadUint64VersusBigEndian(time);
    BigEndian8(time);
    BigEndian4(time[4..]);
  }
}
