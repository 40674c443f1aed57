/** Properties of the segment-index decoder `sidx` (lib/fmp4_parser.js:494-524):
    where each reference field sits in its 12 bytes, and that the reference loop
    never advances its position, so every entry repeats the reference at offset 24. */
module IndexProperties {
  import opened Bytes
  import opened BoxParser
  import opened FragmentProperties

  /** A reference whose fields `ReferenceAt` reads back exactly: one-bit flags, a
      three-bit SAP type, and size, duration and SAP delta below 2^24. */
  predicate ReferenceExact(r: Reference)
  {
    && r.referenceType <= 1 && r.startsWithSap <= 1 && r.sapType < 8
    && r.referenceSize.Int? && 0 <= r.referenceSize.val < 0x100_0000
    && r.subsegmentDuration.Int? && 0 <= r.subsegmentDuration.val < 0x100_0000
    && r.sapDeltaTime.Int? && 0 <= r.sapDeltaTime.val < 0x100_0000
  }

  /** The 12 bytes of a reference: the type bit above a 31-bit size, the 32-bit
      duration, then the SAP bit and 3-bit SAP type above a 28-bit delta. */
  function ReferenceBytes(r: Reference): (b: seq<byte>)
    requires ReferenceExact(r)
    ensures |b| == 12
  {
    [r.referenceType * 0x80] + Uint24Bytes(r.referenceSize.val)
    + Uint32Bytes(r.subsegmentDuration.val)
    + ([r.startsWithSap * 0x80 + r.sapType * 0x10] + Uint24Bytes(r.sapDeltaTime.val))
  }

  /** A byte with its top bit, the next three bits and the low four bits. */
  lemma ByteFields(b: byte, top: nat, mid: nat)
    requires top <= 1 && mid < 8 && b == top * 0x80 + mid * 0x10
    ensures ReadBit(b, 8) == top && ReadUint3(b) == mid
    ensures b % 0x80 == mid * 0x10 && b % 0x10 == 0
  {
  }

  /** A word whose first byte is masked to 0 before `_readUint32` reads it. */
  lemma MaskedWord(w: seq<byte>, masked: seq<byte>, v: nat)
    requires v < 0x100_0000 && |w| == 4 && w[1..] == Uint24Bytes(v)
    requires masked == w[0 := 0]
    ensures ReadUint32(masked) == Int(v)
  {
    Uint24RoundTrip(v);
    assert masked[1..] == w[1..];
  }

  /** The first word of a reference: the type bit, then a size `_readUint31` reads. */
  lemma TypeAndSize(w: seq<byte>, top: nat, v: nat)
    requires |w| == 4 && top <= 1 && v < 0x100_0000
    requires w[0] == top * 0x80 && w[1..] == Uint24Bytes(v)
    ensures ReadBit(SingleByte(w[..1]), 8) == top && ReadUint31(w) == Int(v)
  {
    ByteFields(w[0], top, 0);
    MaskedWord(w, w[0 := w[0] % 0x80], v);
  }

  /** The third word of a reference: the SAP bit, the SAP type, then a delta
      `_readUint28` reads. */
  lemma SapAndDelta(w: seq<byte>, top: nat, mid: nat, v: nat)
    requires |w| == 4 && top <= 1 && mid < 8 && v < 0x100_0000
    requires w[0] == top * 0x80 + mid * 0x10 && w[1..] == Uint24Bytes(v)
    ensures ReadBit(SingleByte(w[..1]), 8) == top && ReadUint3(SingleByte(w[..1])) == mid
    ensures ReadUint28(w) == Int(v)
  {
    ByteFields(w[0], top, mid);
    MaskedWord(w, w[0 := w[0] % 0x10], v);
  }

  /** Where the fields of a written reference sit. */
  lemma ReferenceBytesLayout(r: Reference)
    requires ReferenceExact(r)
    ensures var b := ReferenceBytes(r);
            && b[..4][0] == r.referenceType * 0x80 && b[..4][1..] == Uint24Bytes(r.referenceSize.val)
            && b[..4][..1] == b[..1]
            && b[4..8] == Uint32Bytes(r.subsegmentDuration.val)
            && b[8..][0] == r.startsWithSap * 0x80 + r.sapType * 0x10
            && b[8..][1..] == Uint24Bytes(r.sapDeltaTime.val)
            && b[8..][..1] == b[8..9]
  {
  }

  /** The window of `data` at `pos` seen through `Slice`. */
  lemma SliceWithin(data: seq<byte>, pos: nat, b: seq<byte>, i: nat, j: nat)
    requires pos + |b| <= |data| && data[pos .. pos + |b|] == b && i <= j <= |b|
    ensures Slice(data, pos + i, pos + j) == b[i..j]
  {
    forall k | 0 <= k < j - i
      ensures data[pos + i .. pos + j][k] == b[i..j][k]
    {
      assert data[pos + i .. pos + j][k] == data[pos + i + k] == data[pos .. pos + |b|][i + k];
    }
  }

  lemma SliceHead(data: seq<byte>, pos: nat, b: seq<byte>, j: nat)
    requires pos + |b| <= |data| && data[pos .. pos + |b|] == b && j <= |b|
    ensures Slice(data, pos, pos + j) == b[..j]
  {
  }

  /** `ReferenceAt` reads a written reference back. */
  lemma ReferenceReadBack(data: seq<byte>, pos: nat, r: Reference)
    requires ReferenceExact(r) && pos + 12 <= |data| && data[pos .. pos + 12] == ReferenceBytes(r)
    ensures ReferenceAt(data, pos) == r
  {
    var b := ReferenceBytes(r);
    ReferenceBytesLayout(r);
    SliceHead(data, pos, b, 1);
    SliceHead(data, pos, b, 4);
    SliceWithin(data, pos, b, 4, 8);
    SliceWithin(data, pos, b, 8, 9);
    SliceWithin(data, pos, b, 8, 12);
    assert b[8..12] == b[8..];
    TypeAndSize(b[..4], r.referenceType, r.referenceSize.val);
    ReadUint32RoundTrip(r.subsegmentDuration.val);
    SapAndDelta(b[8..], r.startsWithSap, r.sapType, r.sapDeltaTime.val);
  }

  /** The reference loop runs `n` times and, never advancing `pos`, returns the
      reference at `pos` every time. */
  lemma {:induction false} ReferencesRepeat(data: seq<byte>, pos: nat, n: nat)
    ensures |References(data, pos, n)| == n
    ensures forall k :: 0 <= k < n ==> References(data, pos, n)[k] == ReferenceAt(data, pos)
    decreases n
  {
    if n > 0 {
      ReferencesRepeat(data, pos, n - 1);
    }
  }

  /** The 16-bit reference count, big-endian. */
  function Uint16Bytes(v: nat): (r: seq<byte>)
    requires v < 0x1_0000
    ensures |r| == 2
  {
    Uint32Bytes(v)[2..]
  }

  lemma Uint16RoundTrip(v: nat)
    requires v < 0x1_0000
    ensures ReadUint16(Uint16Bytes(v)) == Int(v)
  {
    BigEndian4(Uint32Bytes(v));
  }

  /** A `sidx` payload: version, zero flags, reference id, timescale, earliest
      presentation time and first offset, 16 reserved bits, the reference count,
      then `count` copies of one reference. */
  function SidxBytes(version: byte, referenceId: nat, timescale: nat, earliest: nat, firstOffset: nat,
                     count: nat, r: Reference): (b: seq<byte>)
    requires referenceId < 0x100_0000 && timescale < 0x100_0000
    requires earliest < 0x100_0000 && firstOffset < 0x100_0000
    requires count < 0x1_0000 && ReferenceExact(r)
    ensures |b| == 24 + 12 * count
  {
    [version, 0, 0, 0] + Uint32Bytes(referenceId) + Uint32Bytes(timescale)
    + Uint32Bytes(earliest) + Uint32Bytes(firstOffset) + ([0, 0] + Uint16Bytes(count))
    + Repeat(ReferenceBytes(r), count)
  }

  function Repeat(s: seq<byte>, n: nat): (r: seq<byte>)
    ensures |r| == n * |s|
  {
    if n == 0 then [] else s + Repeat(s, n - 1)
  }

  /** `sidx` reads back a written payload whose references are all the same: its
      header fields, its count, and that reference `count` times.  Because the loop
      reads offset 24 on every pass, the entries of any payload depend only on the
      count and the first reference (`SidxEntries`). */
  lemma SidxRoundTrip(version: byte, referenceId: nat, timescale: nat, earliest: nat, firstOffset: nat,
                      count: nat, r: Reference)
    requires referenceId < 0x100_0000 && timescale < 0x100_0000
    requires earliest < 0x100_0000 && firstOffset < 0x100_0000
    requires 0 < count < 0x1_0000 && ReferenceExact(r)
    ensures DecodeSidx(SidxBytes(version, referenceId, timescale, earliest, firstOffset, count, r))
            == SegmentIndex(Int(version), Int(referenceId), Int(timescale), Int(earliest),
                            Int(firstOffset), Int(count), seq(count, _ => r))
  {
    var data := SidxBytes(version, referenceId, timescale, earliest, firstOffset, count, r);
    SidxHeader(version, referenceId, timescale, earliest, firstOffset, count, r);
    ReferenceReadBack(data, 24, r);
    ReferencesRepeat(data, 24, count);
  }

  lemma SidxHeader(version: byte, referenceId: nat, timescale: nat, earliest: nat, firstOffset: nat,
                   count: nat, r: Reference)
    requires referenceId < 0x100_0000 && timescale < 0x100_0000
    requires earliest < 0x100_0000 && firstOffset < 0x100_0000
    requires 0 < count < 0x1_0000 && ReferenceExact(r)
    ensures var data := SidxBytes(version, referenceId, timescale, earliest, firstOffset, count, r);
            && At(data, 0) == Int(version)
            && ReadUint32(Slice(data, 4, 8)) == Int(referenceId)
            && ReadUint32(Slice(data, 8, 12)) == Int(timescale)
            && ReadUint32(Slice(data, 12, 16)) == Int(earliest)
            && ReadUint32(Slice(data, 16, 20)) == Int(firstOffset)
            && ReadUint16(Slice(data, 22, 24)) == Int(count)
            && data[24 .. 36] == ReferenceBytes(r)
  {
    var data := SidxBytes(version, referenceId, timescale, earliest, firstOffset, count, r);
    assert Slice(data, 4, 8) == Uint32Bytes(referenceId);
    assert Slice(data, 8, 12) == Uint32Bytes(timescale);
    assert Slice(data, 12, 16) == Uint32Bytes(earliest);
    assert Slice(data, 16, 20) == Uint32Bytes(firstOffset);
    assert Slice(data, 22, 24) == Uint16Bytes(count);
    assert data[24 .. 36] == Repeat(ReferenceBytes(r), count)[..12] == ReferenceBytes(r);
    ReadUint32RoundTrip(referenceId);
    ReadUint32RoundTrip(timescale);
    ReadUint32RoundTrip(earliest);
    ReadUint32RoundTrip(firstOffset);
    Uint16RoundTrip(count);
  }

  /** Whatever follows offset 36, the entries are `reference_count` copies of the
      reference at offset 24; a NaN count (a payload shorter than 24 bytes) gives
      none. */
  lemma SidxEntries(data: seq<byte>)
    ensures var d := DecodeSidx(data);
            && |d.entries| == LoopCount(ReadUint16(Slice(data, 22, 24)))
            && (forall k :: 0 <= k < |d.entries| ==> d.entries[k] == ReferenceAt(data, 24))
            && (|data| < 24 ==> d.entries == [])
  {
    ReferencesRepeat(data, 24, LoopCount(ReadUint16(Slice(data, 22, 24))));
  }

  /** The `sidx` payload of the repository's example: version 0, reference id 1,
      timescale 30000, earliest presentation time and first offset 0, one
      reference ... */
  const SidxHead: seq<byte> := [0, 0, 0, 0, 0, 0, 0, 1, 0, 0, 0x75, 0x30, 0, 0, 0, 0, 0, 0, 0, 0, 0, 0, 0, 1]

  /** ... to a 1049563-byte subsegment of 58058 ticks, starting with a SAP of type 1. */
  const SidxEntry: seq<byte> := [0, 0x10, 0x03, 0xdb, 0, 0, 0xe2, 0xca, 0x90, 0, 0, 0]

  lemma SidxExample()
    ensures DecodeSidx(SidxHead + SidxEntry)
            == SegmentIndex(Int(0), Int(1), Int(30000), Int(0), Int(0), Int(1),
                            [Reference(0, Int(1049563), Int(58058), 1, 1, Int(0))])
  {
    var r := Reference(0, Int(1049563), Int(58058), 1, 1, Int(0));
    SidxExampleWords(SidxHead + SidxEntry);
    ExampleEntry();
    ReferenceReadBack(SidxHead + SidxEntry, 24, r);
    ReferencesRepeat(SidxHead + SidxEntry, 24, 1);
  }

  lemma SidxExampleWords(d: seq<byte>)
    requires d == SidxHead + SidxEntry
    ensures |d| == 36 && d[24 .. 36] == SidxEntry
    ensures At(d, 0) == Int(0)
    ensures ReadUint32(Slice(d, 4, 8)) == Int(1)
    ensures ReadUint32(Slice(d, 8, 12)) == Int(30000)
    ensures ReadUint32(Slice(d, 12, 16)) == Int(0) == ReadUint32(Slice(d, 16, 20))
    ensures ReadUint16(Slice(d, 22, 24)) == Int(1)
  {
    var h := SidxHead;
    assert d[..24] == h;
    assert h[4] == h[5] == h[6] == 0 && h[7] == 1;
    assert h[8] == h[9] == 0 && h[10] == 0x75 && h[11] == 0x30;
    assert h[12] == 0 && h[13] == 0 && h[14] == 0 && h[15] == 0;
    assert h[16] == 0 && h[17] == 0 && h[18] == 0 && h[19] == 0;
    assert h[22] == 0 && h[23] == 1;
  }

  lemma ExampleEntry()
    ensures ReferenceBytes(Reference(0, Int(1049563), Int(58058), 1, 1, Int(0))) == SidxEntry
  {
    assert Uint24Bytes(1049563) == [0x10, 0x03, 0xdb] && Uint32Bytes(58058) == [0, 0, 0xe2, 0xca];
    assert Uint24Bytes(0) == [0, 0, 0];
  }
}
