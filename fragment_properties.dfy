/** Properties of the track-fragment decoders `tfhd` (lib/fmp4_parser.js:395-429)
    and `trun` (lines 431-475): the optional fields and the per-sample fields are
    read one after another, each only when its flag is set, so a payload written
    in that layout decodes back to the values written. */
module FragmentProperties {
  import opened Bytes
  import opened BoxParser

  // ---------------------------------------------------------------------------
  // Optional 32-bit fields

  /** An optional field whose value `_readUint32` reads back exactly (below 2^24). */
  predicate Exact(o: Option<Num>)
  {
    o.None? || (o.value.Int? && 0 <= o.value.val < 0x100_0000)
  }

  /** The bytes of an optional 32-bit field: nothing when it is absent. */
  function FieldBytes(o: Option<Num>): (r: seq<byte>)
    requires Exact(o)
    ensures |r| == if o.Some? then 4 else 0
  {
    if o.None? then [] else Uint32Bytes(o.value.val)
  }

  /** The bytes of an optional 64-bit field: a zero high word, then the value. */
  function Field64Bytes(o: Option<Num>): (r: seq<byte>)
    requires Exact(o)
    ensures |r| == if o.Some? then 8 else 0
  {
    if o.None? then [] else [0, 0, 0, 0] + Uint32Bytes(o.value.val)
  }

  /** An optional 32-bit field is read back, and the position after it is where
      the rest of the payload starts. */
  lemma OptionalReadBack(data: seq<byte>, pos: nat, o: Option<Num>, rest: seq<byte>)
    requires Exact(o) && pos <= |data| && data[pos..] == FieldBytes(o) + rest
    ensures Optional(data, pos, o.Some?, 4).0 == o
    ensures Optional(data, pos, o.Some?, 4).1 <= |data|
    ensures data[Optional(data, pos, o.Some?, 4).1..] == rest
  {
    if o.Some? {
      assert Slice(data, pos, pos + 4) == data[pos..][..4] == Uint32Bytes(o.value.val);
      ReadUint32RoundTrip(o.value.val);
      assert data[pos + 4..] == data[pos..][4..];
    }
  }

  /** The same for a 64-bit field, read by `_readUint64`. */
  lemma Optional64ReadBack(data: seq<byte>, pos: nat, o: Option<Num>, rest: seq<byte>)
    requires Exact(o) && pos <= |data| && data[pos..] == Field64Bytes(o) + rest
    ensures Optional(data, pos, o.Some?, 8).0 == o
    ensures Optional(data, pos, o.Some?, 8).1 <= |data|
    ensures data[Optional(data, pos, o.Some?, 8).1..] == rest
  {
    if o.Some? {
      var w := Slice(data, pos, pos + 8);
      assert w == data[pos..][..8] == [0, 0, 0, 0] + Uint32Bytes(o.value.val);
      assert Slice(w, 0, 4) == [0, 0, 0, 0];
      assert Slice(w, 4, 8) == Uint32Bytes(o.value.val);
      ReadUint32RoundTrip(o.value.val);
      assert data[pos + 8..] == data[pos..][8..];
    }
  }

  /** The 24-bit flags field, big-endian. */
  function Uint24Bytes(v: nat): (r: seq<byte>)
    requires v < 0x100_0000
    ensures |r| == 3
  {
    Uint32Bytes(v)[1..]
  }

  lemma Uint24RoundTrip(v: nat)
    requires v < 0x100_0000
    ensures ReadUint24(Uint24Bytes(v)) == Int(v)
  {
    BigEndian4(Uint32Bytes(v));
  }

  /** Dropping the 8-byte version, flags and 32-bit field that open a full box. */
  lemma DropFullBoxHeader(version: byte, flags: seq<byte>, word: seq<byte>, body: seq<byte>)
    requires |flags| == 3 && |word| == 4
    ensures ([version] + flags + word + body)[8..] == body
  {
  }

  /** Regrouping four fields followed by the rest of a payload. */
  lemma Regroup(b1: seq<byte>, b2: seq<byte>, b3: seq<byte>, b4: seq<byte>, rest: seq<byte>)
    ensures (b1 + (b2 + (b3 + b4))) + rest == b1 + (b2 + (b3 + (b4 + rest)))
  {
  }

  // ---------------------------------------------------------------------------
  // trun

  /** A sample whose present fields are all read back exactly. */
  predicate SampleExact(s: Sample)
  {
    Exact(s.duration) && Exact(s.size) && Exact(s.flags) && Exact(s.compositionTimeOffset)
  }

  /** Which fields a sample carries. */
  function FlagsOf(s: Sample): SampleFlags
  {
    SampleFlags(s.duration.Some?, s.size.Some?, s.flags.Some?, s.compositionTimeOffset.Some?)
  }

  /** The bytes of one sample: its present fields in the order duration, size,
      flags, composition time offset. */
  function SampleBytes(s: Sample): (r: seq<byte>)
    requires SampleExact(s)
  {
    FieldBytes(s.duration) + (FieldBytes(s.size) + (FieldBytes(s.flags) + FieldBytes(s.compositionTimeOffset)))
  }

  /** One iteration of the sample loop reads a written sample back and stops where
      the next one starts. */
  lemma SampleReadBack(data: seq<byte>, pos: nat, s: Sample, rest: seq<byte>)
    requires SampleExact(s) && pos <= |data| && data[pos..] == SampleBytes(s) + rest
    ensures SampleAt(data, pos, FlagsOf(s)).0 == s
    ensures SampleAt(data, pos, FlagsOf(s)).1 <= |data|
    ensures data[SampleAt(data, pos, FlagsOf(s)).1..] == rest
  {
    var f := FlagsOf(s);
    var b1, b2, b3, b4 := FieldBytes(s.duration), FieldBytes(s.size), FieldBytes(s.flags), FieldBytes(s.compositionTimeOffset);
    Regroup(b1, b2, b3, b4, rest);
    OptionalReadBack(data, pos, s.duration, b2 + (b3 + (b4 + rest)));
    var p1 := Optional(data, pos, f.duration, 4).1;
    OptionalReadBack(data, p1, s.size, b3 + (b4 + rest));
    var p2 := Optional(data, p1, f.size, 4).1;
    OptionalReadBack(data, p2, s.flags, b4 + rest);
    var p3 := Optional(data, p2, f.flags, 4).1;
    OptionalReadBack(data, p3, s.compositionTimeOffset, rest);
  }

  /** Samples that all carry the fields `f` names, each read back exactly. */
  predicate SamplesExact(ss: seq<Sample>, f: SampleFlags)
  {
    forall k :: 0 <= k < |ss| ==> SampleExact(ss[k]) && FlagsOf(ss[k]) == f
  }

  /** The bytes of a list of samples, one after another. */
  function SamplesBytes(ss: seq<Sample>, f: SampleFlags): seq<byte>
    requires SamplesExact(ss, f)
  {
    if ss == [] then [] else SampleBytes(ss[0]) + SamplesBytes(ss[1..], f)
  }

  /** The sample loop runs exactly `n` times. */
  lemma {:induction false} SamplesLength(data: seq<byte>, pos: nat, n: nat, f: SampleFlags)
    ensures |Samples(data, pos, n, f)| == n
    decreases n
  {
    if n > 0 {
      SamplesLength(data, SampleAt(data, pos, f).1, n - 1, f);
    }
  }

  /** The sample loop reads written samples back. */
  lemma {:induction false} SamplesReadBack(data: seq<byte>, pos: nat, f: SampleFlags, ss: seq<Sample>, rest: seq<byte>)
    requires SamplesExact(ss, f) && pos <= |data| && data[pos..] == SamplesBytes(ss, f) + rest
    ensures Samples(data, pos, |ss|, f) == ss
    decreases |ss|
  {
    if ss != [] {
      SamplesBytesCons(ss, f, rest);
      SampleReadBack(data, pos, ss[0], SamplesBytes(ss[1..], f) + rest);
      SamplesReadBack(data, SampleAt(data, pos, f).1, f, ss[1..], rest);
      SamplesCons(data, pos, f, ss);
    }
  }

  lemma SamplesBytesCons(ss: seq<Sample>, f: SampleFlags, rest: seq<byte>)
    requires SamplesExact(ss, f) && ss != []
    ensures SampleExact(ss[0]) && FlagsOf(ss[0]) == f && SamplesExact(ss[1..], f)
    ensures SamplesBytes(ss, f) + rest == SampleBytes(ss[0]) + (SamplesBytes(ss[1..], f) + rest)
  {
    assert forall k :: 0 <= k < |ss| - 1 ==> ss[1..][k] == ss[k + 1];
  }

  lemma SamplesCons(data: seq<byte>, pos: nat, f: SampleFlags, ss: seq<Sample>)
    requires ss != [] && SampleAt(data, pos, f).0 == ss[0]
    requires Samples(data, SampleAt(data, pos, f).1, |ss| - 1, f) == ss[1..]
    ensures Samples(data, pos, |ss|, f) == ss
  {
  }

  /** The flags field of a `trun` box announces exactly the fields written. */
  predicate TrunFlags(flags: nat, dataOffset: Option<Num>, firstSampleFlags: Option<Num>, f: SampleFlags)
  {
    && FlagSet(Int(flags), 0x000001) == dataOffset.Some?
    && FlagSet(Int(flags), 0x000004) == firstSampleFlags.Some?
    && SampleFlagsOf(Int(flags)) == f
  }

  /** The payload of a `trun` box: version, flags, sample count, the two optional
      fields and the samples. */
  function TrunBytes(version: byte, flags: nat, dataOffset: Option<Num>, firstSampleFlags: Option<Num>,
                     f: SampleFlags, ss: seq<Sample>): seq<byte>
    requires flags < 0x100_0000 && |ss| < 0x100_0000
    requires Exact(dataOffset) && Exact(firstSampleFlags) && SamplesExact(ss, f)
  {
    [version] + Uint24Bytes(flags) + Uint32Bytes(|ss|)
    + (FieldBytes(dataOffset) + (FieldBytes(firstSampleFlags) + SamplesBytes(ss, f)))
  }

  /** `trun` reads a written payload back: the presence flags, the sample count,
      the optional fields and every sample. */
  lemma TrunRoundTrip(version: byte, flags: nat, dataOffset: Option<Num>, firstSampleFlags: Option<Num>,
                      f: SampleFlags, ss: seq<Sample>)
    requires flags < 0x100_0000 && |ss| < 0x100_0000
    requires Exact(dataOffset) && Exact(firstSampleFlags) && SamplesExact(ss, f)
    requires TrunFlags(flags, dataOffset, firstSampleFlags, f)
    ensures DecodeTrun(TrunBytes(version, flags, dataOffset, firstSampleFlags, f, ss))
            == TrackRun(dataOffset.Some?, firstSampleFlags.Some?, f.duration, f.size, f.flags,
                        f.compositionTimeOffset, Int(|ss|), dataOffset, firstSampleFlags, ss)
  {
    var data := TrunBytes(version, flags, dataOffset, firstSampleFlags, f, ss);
    var o1, o2, body := FieldBytes(dataOffset), FieldBytes(firstSampleFlags), SamplesBytes(ss, f);
    assert Slice(data, 1, 4) == Uint24Bytes(flags);
    Uint24RoundTrip(flags);
    assert Slice(data, 4, 8) == Uint32Bytes(|ss|);
    ReadUint32RoundTrip(|ss|);
    DropFullBoxHeader(version, Uint24Bytes(flags), Uint32Bytes(|ss|), o1 + (o2 + body));
    OptionalReadBack(data, 8, dataOffset, o2 + body);
    var p1 := Optional(data, 8, dataOffset.Some?, 4).1;
    OptionalReadBack(data, p1, firstSampleFlags, body);
    var p2 := Optional(data, p1, firstSampleFlags.Some?, 4).1;
    assert body + [] == body;
    SamplesReadBack(data, p2, f, ss, []);
  }

  // ---------------------------------------------------------------------------
  // tfhd

  /** The optional fields of a `tfhd` box. */
  datatype TfhdFields = TfhdFields(baseDataOffset: Option<Num>, sampleDescriptionIndex: Option<Num>,
                                   defaultSampleDuration: Option<Num>, defaultSampleSize: Option<Num>,
                                   defaultSampleFlags: Option<Num>)

  predicate TfhdExact(t: TfhdFields)
  {
    Exact(t.baseDataOffset) && Exact(t.sampleDescriptionIndex) && Exact(t.defaultSampleDuration)
    && Exact(t.defaultSampleSize) && Exact(t.defaultSampleFlags)
  }

  /** The flags field of a `tfhd` box announces exactly the fields written. */
  predicate TfhdFlags(flags: nat, t: TfhdFields)
  {
    && FlagSet(Int(flags), 0x000001) == t.baseDataOffset.Some?
    && FlagSet(Int(flags), 0x000002) == t.sampleDescriptionIndex.Some?
    && FlagSet(Int(flags), 0x000008) == t.defaultSampleDuration.Some?
    && FlagSet(Int(flags), 0x000010) == t.defaultSampleSize.Some?
    && FlagSet(Int(flags), 0x000020) == t.defaultSampleFlags.Some?
  }

  /** The payload of a `tfhd` box: version, flags, track id, then the present
      optional fields in order, the base data offset 64 bits wide. */
  function TfhdBytes(version: byte, flags: nat, trackId: nat, t: TfhdFields): seq<byte>
    requires flags < 0x100_0000 && trackId < 0x1_0000_0000 && TfhdExact(t)
  {
    [version] + Uint24Bytes(flags) + Uint32Bytes(trackId)
    + (Field64Bytes(t.baseDataOffset) + (FieldBytes(t.sampleDescriptionIndex)
       + (FieldBytes(t.defaultSampleDuration) + (FieldBytes(t.defaultSampleSize) + FieldBytes(t.defaultSampleFlags)))))
  }

  /** `tfhd` reads a written payload back: every presence flag, the two
      `duration_is_empty` and `default_base_is_moof` flags, the track id and each
      optional field, at the offset the fields before it leave. */
  lemma TfhdRoundTrip(version: byte, flags: nat, trackId: nat, t: TfhdFields)
    requires flags < 0x100_0000 && trackId < 0x100_0000 && TfhdExact(t) && TfhdFlags(flags, t)
    ensures DecodeTfhd(TfhdBytes(version, flags, trackId, t))
            == TrackFragmentHeader(
                 t.baseDataOffset.Some?, t.sampleDescriptionIndex.Some?, t.defaultSampleDuration.Some?,
                 t.defaultSampleSize.Some?, t.defaultSampleFlags.Some?,
                 FlagSet(Int(flags), 0x010000), FlagSet(Int(flags), 0x020000), Int(trackId),
                 t.baseDataOffset, t.sampleDescriptionIndex, t.defaultSampleDuration,
                 t.defaultSampleSize, t.defaultSampleFlags)
  {
    var data := TfhdBytes(version, flags, trackId, t);
    var b0, b1, b2, b3, b4 := Field64Bytes(t.baseDataOffset), FieldBytes(t.sampleDescriptionIndex),
      FieldBytes(t.defaultSampleDuration), FieldBytes(t.defaultSampleSize), FieldBytes(t.defaultSampleFlags);
    assert Slice(data, 1, 4) == Uint24Bytes(flags);
    Uint24RoundTrip(flags);
    assert Slice(data, 4, 8) == Uint32Bytes(trackId);
    ReadUint32RoundTrip(trackId);
    DropFullBoxHeader(version, Uint24Bytes(flags), Uint32Bytes(trackId), b0 + (b1 + (b2 + (b3 + b4))));
    Optional64ReadBack(data, 8, t.baseDataOffset, b1 + (b2 + (b3 + b4)));
    var p1 := Optional(data, 8, t.baseDataOffset.Some?, 8).1;
    OptionalReadBack(data, p1, t.sampleDescriptionIndex, b2 + (b3 + b4));
    var p2 := Optional(data, p1, t.sampleDescriptionIndex.Some?, 4).1;
    OptionalReadBack(data, p2, t.defaultSampleDuration, b3 + b4);
    var p3 := Optional(data, p2, t.defaultSampleDuration.Some?, 4).1;
    OptionalReadBack(data, p3, t.defaultSampleSize, b4);
    assert b4 + [] == b4;
    var p4 := Optional(data, p3, t.defaultSampleSize.Some?, 4).1;
    OptionalReadBack(data, p4, t.defaultSampleFlags, []);
  }

  /** A `tfhd` payload with flags 0x02002A (sample description index, default
      duration and default flags present; default base is moof), track 1,
      description index 1, duration 1001 and default flags bytes 01 01 00 00. */
  const TfhdPayload: seq<byte> := [0, 0x02, 0x00, 0x2A, 0, 0, 0, 1, 0, 0, 0, 1, 0, 0, 0x03, 0xE9, 0x01, 0x01, 0, 0]

  /** The flags word decodes to 65537, not 0x01010000: `_readUint32` adds its first
      byte unscaled. */
  lemma TfhdExample()
    ensures DecodeTfhd(TfhdPayload)
            == TrackFragmentHeader(false, true, true, false, true, false, true, Int(1),
                                   None, Some(Int(1)), Some(Int(1001)), None, Some(Int(0x1_0001)))
  {
    TfhdPayloadWords();
    FlagsExample();
  }

  lemma TfhdPayloadWords()
    ensures ReadUint24(Slice(TfhdPayload, 1, 4)) == Int(0x2002A)
    ensures ReadUint32(Slice(TfhdPayload, 4, 8)) == Int(1) == ReadUint32(Slice(TfhdPayload, 8, 12))
    ensures ReadUint32(Slice(TfhdPayload, 12, 16)) == Int(1001)
    ensures ReadUint32(Slice(TfhdPayload, 16, 20)) == Int(0x1_0001)
  {
    var d := TfhdPayload;
    assert Slice(d, 1, 4) == [0x02, 0x00, 0x2A];
    assert Slice(d, 4, 8) == [0, 0, 0, 1] == Slice(d, 8, 12);
    assert Slice(d, 12, 16) == [0, 0, 0x03, 0xE9];
    assert Slice(d, 16, 20) == [0x01, 0x01, 0, 0];
  }

  lemma FlagsExample()
    ensures !FlagSet(Int(0x2002A), 0x000001) && FlagSet(Int(0x2002A), 0x000002)
    ensures FlagSet(Int(0x2002A), 0x000008) && !FlagSet(Int(0x2002A), 0x000010)
    ensures FlagSet(Int(0x2002A), 0x000020) && !FlagSet(Int(0x2002A), 0x010000)
    ensures FlagSet(Int(0x2002A), 0x020000)
  {
  }
}
