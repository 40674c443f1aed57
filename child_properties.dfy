/** Properties of the child splitter `_parseChildBox` (lib/fmp4_parser.js:88-105)
    and of `MP4Box.parse` (lines 549-558). */
module ChildProperties {
  import opened Bytes
  import opened Boxes
  import opened BoxParser

  // ---------------------------------------------------------------------------
  // parse()

  /** `parse()` always returns the box's own header, and adds a decoded record
      exactly when the registry has a decoder for the type; only a decoder can
      fail to return. */
  lemma ParseShape(b: Box)
    ensures Parse(b).Returns? ==> Parse(b).value.hdr == b.hdr
    ensures Parse(b).Returns? ==> (Parse(b).value.decoded.Some? <==> b.hdr.boxType in DecoderTypes)
    ensures b.hdr.boxType !in DecoderTypes ==> Parse(b) == Returns(Parsed(b.hdr, None))
    ensures Parse(b).Returns? && b.hdr.boxType in DecoderTypes ==>
              Decode(b.hdr.boxType, b.data) == Returns(Parse(b).value.decoded.value)
    ensures b.hdr.boxType in DecoderTypes ==> (Parse(b).Hangs? <==> Decode(b.hdr.boxType, b.data).Hangs?)
  {
  }

  // ---------------------------------------------------------------------------
  // One child.

  /** A child's payload has its declared size: the bytes that follow its header in
      the parent, as far as the declared size and the parent reach, then zeros.
      Its last 8 bytes are always zero, since the payload array is allocated with
      the full declared size while only `size - 8` bytes are copied into it. */
  lemma ChildPayload(data: seq<byte>, pos: nat, size: nat)
    ensures var c := ChildAt(data, pos, size).data;
            |c| == size
            && forall i :: 0 <= i < size ==>
                 c[i] == (if i + BoxHeaderSize < size && pos + BoxHeaderSize + i < |data|
                          then data[pos + BoxHeaderSize + i] else 0)
  {
    var s := Slice(data, pos + 8, pos + size);
    forall i | 0 <= i < size
      ensures ChildAt(data, pos, size).data[i]
              == (if i + 8 < size && pos + 8 + i < |data| then data[pos + 8 + i] else 0)
    {
      PadAt(s, size, i);
      if i + 8 < size {
        SliceAt(data, pos + 8, pos + size, i);
      }
    }
  }

  /** `s.slice(from, to)[k]` for `k` below `to - from`. */
  lemma SliceAt(s: seq<byte>, from: nat, to: nat, k: nat)
    requires from + k < to
    ensures k < |Slice(s, from, to)| <==> from + k < |s|
    ensures k < |Slice(s, from, to)| ==> Slice(s, from, to)[k] == s[from + k]
  {
  }

  /** A child header of size 0 never moves the cursor: the splitter never
      returns. */
  lemma ZeroSizeChildHangs(data: seq<byte>, pos: nat)
    requires pos + BoxHeaderSize < |data|
    requires data[pos] == data[pos + 1] == data[pos + 2] == data[pos + 3] == 0
    ensures ChildBoxes(data, pos) == Hangs
  {
    assert ReadUint32(data[pos..pos + 4]) == Int(0);
  }

  /** So does every container whose splitter does. */
  lemma ContainerHangs(t: string, data: seq<byte>)
    requires t in ContainerTypes && ChildBoxes(data, 0) == Hangs
    ensures Decode(t, data) == Hangs
  {
  }

  // ---------------------------------------------------------------------------
  // Reading written children back.

  /** The child a written entry becomes: its 8 header bytes, and its payload
      followed by 8 zero bytes. */
  function ChildOf(e: Entry): (b: Box)
    requires Writable(e)
    ensures |b.data| == BoxHeaderSize + |e.payload| && b.data[..|e.payload|] == e.payload
  {
    var size := 8 + |e.payload|;
    Box(Header(Int(size), e.boxType, Uint32Bytes(size) + FourCCBytes(e.boxType)), Pad(e.payload, size))
  }

  /** One step of the splitter loop at `pos`: parse the child there, then go on
      from `pos + size`. */
  lemma ChildBoxesStep(data: seq<byte>, pos: nat)
    requires pos + BoxHeaderSize < |data| && ReadUint32(data[pos .. pos + 4]).val > 0
    ensures ChildBoxes(data, pos)
            == Prepend(Parse(ChildAt(data, pos, ReadUint32(data[pos .. pos + 4]).val)),
                       ChildBoxes(data, pos + ReadUint32(data[pos .. pos + 4]).val))
  {
  }

  /** The bytes of a written entry at `pos`: its size, its type, its payload,
      and what follows it. */
  lemma FrameBytes(data: seq<byte>, pos: nat, e: Entry, rest: seq<byte>)
    requires Writable(e)
    requires pos <= |data| && data[pos..] == Frame(e) + rest
    ensures pos + 8 + |e.payload| <= |data|
    ensures data[pos .. pos + 4] == Uint32Bytes(8 + |e.payload|)
    ensures Slice(data, pos + 4, pos + 8) == FourCCBytes(e.boxType)
    ensures Slice(data, pos, pos + 8) == Uint32Bytes(8 + |e.payload|) + FourCCBytes(e.boxType)
    ensures Slice(data, pos + 8, pos + 8 + |e.payload|) == e.payload
    ensures data[pos + 8 + |e.payload| ..] == rest
  {
    var size := 8 + |e.payload|;
    assert data[pos .. pos + 4] == data[pos..][..4];
    assert data[pos + 4 .. pos + 8] == data[pos..][4..8];
    assert data[pos .. pos + 8] == data[pos..][..8];
    assert data[pos + 8 .. pos + size] == data[pos..][8..size];
    assert data[pos + size ..] == data[pos..][size..];
  }

  /** The child the splitter builds from a written entry's bytes. */
  lemma ChildAtFrame(data: seq<byte>, pos: nat, e: Entry)
    requires Writable(e)
    requires Slice(data, pos + 4, pos + 8) == FourCCBytes(e.boxType)
    requires Slice(data, pos, pos + 8) == Uint32Bytes(8 + |e.payload|) + FourCCBytes(e.boxType)
    requires Slice(data, pos + 8, pos + 8 + |e.payload|) == e.payload
    ensures ChildAt(data, pos, 8 + |e.payload|) == ChildOf(e)
  {
    Read4CCInverse(e.boxType);
  }

  /** A written entry at `pos`: the splitter reads its size, its child is the
      entry's child, and the bytes after it are those after its frame. */
  lemma FrameAt(data: seq<byte>, pos: nat, e: Entry, rest: seq<byte>)
    requires Writable(e) && |e.payload| + |rest| > 0
    requires pos <= |data| && data[pos..] == Frame(e) + rest
    ensures pos + BoxHeaderSize < |data| && pos + 4 <= |data|
    ensures ReadUint32(data[pos .. pos + 4]).val == 8 + |e.payload|
    ensures pos + ReadUint32(data[pos .. pos + 4]).val <= |data|
    ensures ChildAt(data, pos, ReadUint32(data[pos .. pos + 4]).val) == ChildOf(e)
    ensures data[pos + ReadUint32(data[pos .. pos + 4]).val ..] == rest
  {
    FrameBytes(data, pos, e, rest);
    ReadUint32RoundTrip(8 + |e.payload|);
    ChildAtFrame(data, pos, e);
    DropAt(data, pos + ReadUint32(data[pos .. pos + 4]).val, pos + 8 + |e.payload|, rest);
  }

  lemma DropAt(data: seq<byte>, i: nat, j: nat, rest: seq<byte>)
    requires i == j <= |data| && data[j..] == rest
    ensures data[i..] == rest
  {
  }

  /** The splitter returns no children once at most 8 bytes remain. */
  lemma ChildBoxesStops(data: seq<byte>, pos: nat)
    requires |data| <= pos + BoxHeaderSize
    ensures ChildBoxes(data, pos) == Returns([])
  {
  }

  /** What the splitter should give for written entries: each entry's child
      parsed in order, except a last entry with an empty payload, whose bare
      8-byte header the loop condition `pos < data.length - 8` skips. */
  function ReadBack(es: seq<Entry>): Outcome<seq<Parsed>>
    requires forall e :: e in es ==> Writable(e)
  {
    if es == [] || (|es| == 1 && es[0].payload == []) then Returns([])
    else Prepend(Parse(ChildOf(es[0])), ReadBack(es[1..]))
  }

  /** How many entries the splitter reads back: all, but a bare last header. */
  function KeptCount(es: seq<Entry>): nat
  {
    if es != [] && es[|es| - 1].payload == [] then |es| - 1 else |es|
  }

  /** When the read-back returns, it has one record per kept entry, in order,
      each headed by the entry's type and its size with the 8 header bytes. */
  lemma {:induction false} ReadBackHeaders(es: seq<Entry>)
    requires forall e :: e in es ==> Writable(e)
    ensures ReadBack(es).Returns? ==>
              |ReadBack(es).value| == KeptCount(es)
              && forall i :: 0 <= i < KeptCount(es) ==>
                   ReadBack(es).value[i].hdr == ChildOf(es[i]).hdr
    decreases |es|
  {
    if es == [] || (|es| == 1 && es[0].payload == []) {
    } else {
      ReadBackHeaders(es[1..]);
      ParseShape(ChildOf(es[0]));
      if ReadBack(es).Returns? {
        HeadersCons(es, ReadBack(es).value, Parse(ChildOf(es[0])).value, ReadBack(es[1..]).value);
      }
    }
  }

  lemma HeadersCons(es: seq<Entry>, v: seq<Parsed>, p: Parsed, w: seq<Parsed>)
    requires forall e :: e in es ==> Writable(e)
    requires es != [] && (es[0].payload != [] || |es| > 1)
    requires v == [p] + w && p.hdr == ChildOf(es[0]).hdr && |w| == KeptCount(es[1..])
    requires forall i :: 0 <= i < |w| ==> w[i].hdr == ChildOf(es[1..][i]).hdr
    ensures |v| == KeptCount(es) && forall i :: 0 <= i < |v| ==> v[i].hdr == ChildOf(es[i]).hdr
  {
    assert KeptCount(es) == 1 + KeptCount(es[1..]);
    forall i | 0 < i < |v|
      ensures v[i].hdr == ChildOf(es[i]).hdr
    {
      assert v[i] == w[i - 1];
      assert es[i] == es[1..][i - 1];
    }
  }

  /** The splitter at a written entry that is not a bare last header: the
      entry's child, then the children of the entries after it. */
  lemma ChildBoxesFrameStep(data: seq<byte>, pos: nat, es: seq<Entry>)
    requires forall e :: e in es ==> Writable(e)
    requires es != [] && (es[0].payload != [] || |es| > 1)
    requires pos <= |data| && data[pos..] == Frames(es)
    ensures pos + 4 <= |data| && pos + ReadUint32(data[pos .. pos + 4]).val <= |data|
    ensures data[pos + ReadUint32(data[pos .. pos + 4]).val ..] == Frames(es[1..])
    ensures ChildBoxes(data, pos)
            == Prepend(Parse(ChildOf(es[0])), ChildBoxes(data, pos + ReadUint32(data[pos .. pos + 4]).val))
  {
    assert Frames(es) == Frame(es[0]) + Frames(es[1..]);
    FrameAt(data, pos, es[0], Frames(es[1..]));
    ChildBoxesStep(data, pos);
  }

  /** Container completeness: from a cursor at written entries, the splitter
      reads them back in order, each with its payload padded by 8 zero bytes. */
  lemma {:induction false} ChildBoxesReadsFrames(data: seq<byte>, pos: nat, es: seq<Entry>)
    requires forall e :: e in es ==> Writable(e)
    requires pos <= |data| && data[pos..] == Frames(es)
    ensures ChildBoxes(data, pos) == ReadBack(es)
    decreases |es|
  {
    if es == [] || (|es| == 1 && es[0].payload == []) {
      ChildBoxesStops(data, pos);
    } else {
      ChildBoxesFrameStep(data, pos, es);
      ChildBoxesReadsFrames(data, pos + ReadUint32(data[pos .. pos + 4]).val, es[1..]);
    }
  }

  /** The same for a whole payload of written entries. */
  lemma ChildBoxesReadsAllFrames(es: seq<Entry>)
    requires forall e :: e in es ==> Writable(e)
    ensures ChildBoxes(Frames(es), 0) == ReadBack(es)
  {
    ChildBoxesReadsFrames(Frames(es), 0, es);
  }

  // ---------------------------------------------------------------------------
  // Containers, dref and stsd

  /** A container box (`moov`, `trak`, `mdia`, `minf`, `dinf`, `stbl`, `mvex`,
      `moof`, `traf`) whose payload is written boxes holds exactly their
      read-back, and never returns exactly when one of them does. */
  lemma ContainerReadBack(t: string, es: seq<Entry>)
    requires t in ContainerTypes && forall e :: e in es ==> Writable(e)
    ensures Decode(t, Frames(es)).Hangs? <==> ReadBack(es).Hangs?
    ensures ReadBack(es).Returns? ==> Decode(t, Frames(es)) == Returns(Container(ReadBack(es).value))
  {
    ChildBoxesReadsAllFrames(es);
  }

  /** `dref` (lines 301-303) skips its version, flags and entry count, and reads
      the entries after them as child boxes. */
  lemma DrefReadBack(head: seq<byte>, es: seq<Entry>)
    requires |head| == 8 && forall e :: e in es ==> Writable(e)
    ensures Decode("dref", head + Frames(es)).Hangs? <==> ReadBack(es).Hangs?
    ensures ReadBack(es).Returns? ==> Decode("dref", head + Frames(es)) == Returns(Container(ReadBack(es).value))
  {
    AfterHead(head, Frames(es));
    DecodeAfterHead("dref", head + Frames(es));
    ChildBoxesReadsAllFrames(es);
  }

  /** `stsd` (lines 325-330) reads its entry count and the sample entries after it. */
  lemma StsdReadBack(version: byte, count: nat, es: seq<Entry>)
    requires count < 0x100_0000 && forall e :: e in es ==> Writable(e)
    ensures var data := [version, 0, 0, 0] + Uint32Bytes(count) + Frames(es);
            (Decode("stsd", data).Hangs? <==> ReadBack(es).Hangs?)
            && (ReadBack(es).Returns? ==> Decode("stsd", data) == Returns(SampleDescription(ReadBack(es).value, Int(count))))
  {
    var head := [version, 0, 0, 0] + Uint32Bytes(count);
    AfterHead(head, Frames(es));
    assert Slice(head + Frames(es), 4, 8) == Uint32Bytes(count);
    ReadUint32RoundTrip(count);
    DecodeAfterHead("stsd", head + Frames(es));
    ChildBoxesReadsAllFrames(es);
  }

  lemma AfterHead(head: seq<byte>, rest: seq<byte>)
    requires |head| == 8
    ensures Slice(head + rest, 8, |head + rest|) == rest
  {
  }

  /** `dref` and `stsd` are not containers: no container type starts with "dr",
      and none starts with "s" and has "s" third. */
  lemma NotContainers()
    ensures "dref" !in ContainerTypes && "stsd" !in ContainerTypes
  {
    assert "dref"[0] == 'd' && "dref"[1] == 'r' && "stsd"[0] == 's' && "stsd"[2] == 's';
    forall c | c in ContainerTypes
      ensures c[0] != 'd' || c[1] != 'r'
      ensures c[0] != 's' || c[2] != 's'
    {
    }
  }

  /** `dref` and `stsd` split the children after byte 8. */
  lemma DecodeAfterHead(t: string, data: seq<byte>)
    requires t == "dref" || t == "stsd"
    ensures Decode(t, data).Hangs? <==> ChildBoxes(Slice(data, 8, |data|), 0).Hangs?
    ensures t == "dref" && ChildBoxes(Slice(data, 8, |data|), 0).Returns? ==>
              Decode(t, data) == Returns(Container(ChildBoxes(Slice(data, 8, |data|), 0).value))
    ensures t == "stsd" && ChildBoxes(Slice(data, 8, |data|), 0).Returns? ==>
              Decode(t, data) == Returns(SampleDescription(ChildBoxes(Slice(data, 8, |data|), 0).value, ReadUint32(Slice(data, 4, 8))))
  {
    NotContainers();
  }
}
