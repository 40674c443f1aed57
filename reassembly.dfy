/** The streaming reassembler `fMP4Parser` of lib/fmp4_parser.js (lines 562-608):
    `push` prepends the bytes kept from the previous call, `_parseBoxes` walks the
    buffer with a cursor and appends every complete top-level box. */
module Reassembly {
  import opened Bytes
  import opened Boxes

  /** Why one pass of `_parseBoxes` over a buffer stopped. */
  datatype Stop =
    | Consumed     // the cursor reached the end of the buffer
    | NeedMore     // the next box runs past the end; its bytes are returned for keeping
    | ShortHeader  // 1-3 bytes were left: a box of size NaN was appended, the bytes are lost
    | BadSize      // a box declared fewer than 8 bytes: `new Uint8Array(size - 8)` throws

  /** The boxes one pass appends, the bytes it leaves for the next call, and why it stopped. */
  datatype Scan = Scan(boxes: seq<Box>, leftover: seq<byte>, stop: Stop)

  /** A pass that first appended `done` and then went on as `rest`. */
  function Join(done: seq<Box>, rest: Scan): Scan
  {
    Scan(done + rest.boxes, rest.leftover, rest.stop)
  }

  /** The header `_parseBoxes` reads at the start of `buf` (lines 594-596). */
  function HeaderAt(buf: seq<byte>): Header
  {
    Header(ReadUint32(Slice(buf, 0, 4)), Read4CC(Slice(buf, 4, 8)), Slice(buf, 0, 8))
  }

  /** `_parseBoxes(buf)` (lines 588-608), stated on what is left from the cursor:
      a box that runs past the end stops the pass and its bytes are returned; a
      size of NaN (1-3 bytes left) appends an empty box and ends the loop; a size
      below 8 throws; otherwise the box takes `size - 8` payload bytes. */
  function ScanBoxes(buf: seq<byte>): Scan
    decreases |buf|
  {
    if buf == [] then Scan([], [], Consumed)
    else
      var hdr := HeaderAt(buf);
      if hdr.size.Int? && hdr.size.val > |buf| then Scan([], buf, NeedMore)
      else if !hdr.size.Int? then Scan([Box(hdr, [])], [], ShortHeader)
      else if hdr.size.val < BoxHeaderSize then Scan([], [], BadSize)
      else Join([Box(hdr, buf[BoxHeaderSize .. hdr.size.val])], ScanBoxes(buf[hdr.size.val..]))
  }

  // ---------------------------------------------------------------------------
  // Unfolding one step of a pass.

  lemma JoinAssoc(x: seq<Box>, y: seq<Box>, s: Scan)
    ensures Join(x, Join(y, s)) == Join(x + y, s)
  {
    assert x + (y + s.boxes) == x + y + s.boxes;
  }

  lemma JoinEmpty(done: seq<Box>, leftover: seq<byte>, stop: Stop)
    ensures Join(done, Scan([], leftover, stop)) == Scan(done, leftover, stop)
  {
    assert done + [] == done;
  }

  lemma AppendOne(a: seq<Box>, done: seq<Box>, b: Box)
    ensures a + (done + [b]) == a + done + [b]
  {
  }

  lemma JoinNothing(s: Scan)
    ensures Join([], s) == s
  {
    assert [] + s.boxes == s.boxes;
  }

  /** The first box of `buf` is complete: it declares at least 8 bytes and at most
      what `buf` holds. */
  ghost predicate Fits(buf: seq<byte>)
  {
    buf != [] && HeaderAt(buf).size.Int? && BoxHeaderSize <= HeaderAt(buf).size.val <= |buf|
  }

  /** The first box of `buf`, when it is complete. */
  function FirstBox(buf: seq<byte>): Box
    requires Fits(buf)
  {
    Box(HeaderAt(buf), buf[BoxHeaderSize .. HeaderAt(buf).size.val])
  }

  lemma ScanFits(buf: seq<byte>)
    requires Fits(buf)
    ensures ScanBoxes(buf) == Join([FirstBox(buf)], ScanBoxes(buf[HeaderAt(buf).size.val..]))
  {
  }

  /** The three ways a pass stops at the start of `buf`. */
  lemma ScanStops(buf: seq<byte>)
    requires buf != [] && !Fits(buf)
    ensures var hdr := HeaderAt(buf);
            var r := ScanBoxes(buf);
            (hdr.size.Int? && hdr.size.val > |buf| ==> r == Scan([], buf, NeedMore))
            && (!hdr.size.Int? ==> r == Scan([Box(hdr, [])], [], ShortHeader))
            && (hdr.size.Int? && hdr.size.val <= |buf| ==> r == Scan([], [], BadSize))
  {
  }

  // ---------------------------------------------------------------------------
  // What a pass keeps and what it accounts for.

  /** A buffer `push` may keep: its first four bytes declare more bytes than it holds. */
  ghost predicate Pending(b: seq<byte>)
  {
    |b| >= 4 && ReadUint32(b[..4]).val > |b|
  }

  /** What a pass keeps is a tail of its buffer that declares more bytes than it
      holds, and it keeps nothing unless it stopped for more data. */
  lemma {:induction false} ScanKeepsPendingTail(buf: seq<byte>)
    ensures var r := ScanBoxes(buf);
            (r.stop == NeedMore ==> |r.leftover| <= |buf| && r.leftover == buf[|buf| - |r.leftover|..] && Pending(r.leftover))
            && (r.stop != NeedMore ==> r.leftover == [])
    decreases |buf|
  {
    if buf == [] {
    } else if Fits(buf) {
      var tail := buf[HeaderAt(buf).size.val..];
      ScanFits(buf);
      ScanKeepsPendingTail(tail);
      var r := ScanBoxes(tail);
      if r.stop == NeedMore {
        assert tail[|tail| - |r.leftover|..] == buf[|buf| - |r.leftover|..];
      }
    } else {
      ScanStops(buf);
      if |buf| >= 4 {
        assert Slice(buf, 0, 4) == buf[..4];
      }
    }
  }

  /** The raw bytes of a list of boxes, header bytes then payload, in order. */
  function Flatten(boxes: seq<Box>): seq<byte>
  {
    if boxes == [] then [] else boxes[0].hdr.data + boxes[0].data + Flatten(boxes[1..])
  }

  /** A box as a completed pass of `_parseBoxes` materializes it: an 8-byte header
      whose size counts those 8 bytes and the payload, whatever `HdrSize` says. */
  ghost predicate Framed(b: Box)
  {
    |b.hdr.data| == BoxHeaderSize
    && b.hdr.size == Int(BoxHeaderSize + |b.data|)
    && b.hdr.size == ReadUint32(b.hdr.data[..4])
    && b.hdr.boxType == Read4CC(b.hdr.data[4..])
  }

  /** The header bytes and payload of a complete first box, followed by the rest,
      are the buffer. */
  lemma FirstBoxFramed(buf: seq<byte>)
    requires Fits(buf)
    ensures var box := FirstBox(buf);
            Framed(box) && box.hdr.data + box.data + buf[HeaderAt(buf).size.val..] == buf
  {
    var hdr := HeaderAt(buf);
    var size := hdr.size.val;
    assert hdr.data == buf[..8];
    assert buf == buf[..8] + buf[8 .. size] + buf[size..];
    assert hdr.data[..4] == Slice(buf, 0, 4);
    assert hdr.data[4..] == Slice(buf, 4, 8);
  }

  lemma FlattenJoin(box: Box, r: Scan, rest: seq<byte>)
    requires Flatten(r.boxes) + r.leftover == rest
    ensures Flatten(Join([box], r).boxes) + r.leftover == box.hdr.data + box.data + rest
    ensures forall b :: b in Join([box], r).boxes ==> b == box || b in r.boxes
  {
    assert ([box] + r.boxes)[1..] == r.boxes;
  }

  /** A pass that ends without losing bytes or throwing accounts for every byte:
      the boxes' raw bytes, in stream order, followed by the kept tail. */
  lemma {:induction false} ScanKeepsEveryByte(buf: seq<byte>)
    requires ScanBoxes(buf).stop == Consumed || ScanBoxes(buf).stop == NeedMore
    ensures Flatten(ScanBoxes(buf).boxes) + ScanBoxes(buf).leftover == buf
    ensures forall b :: b in ScanBoxes(buf).boxes ==> Framed(b)
    decreases |buf|
  {
    if buf == [] {
      assert Flatten([]) + [] == buf;
    } else if Fits(buf) {
      var tail := buf[HeaderAt(buf).size.val..];
      ScanFits(buf);
      ScanKeepsEveryByte(tail);
      FirstBoxFramed(buf);
      FlattenJoin(FirstBox(buf), ScanBoxes(tail), tail);
    } else {
      ScanStops(buf);
      assert Flatten([]) + buf == buf;
    }
  }

  /** Whatever `HdrSize` gives for its type (12 for a full box), every box a pass
      appends has a header of at most 8 bytes and a payload that starts right after
      them: `size - 8` bytes when the size is a number, none when it is NaN.  So the
      payload is `size - HdrSize(type)` bytes exactly for the types outside
      `FullBoxTypes`: the per-type header size (`hdrsize`, line 546) never cuts it. */
  lemma {:induction false} PayloadAfterEightBytes(buf: seq<byte>)
    ensures forall b :: b in ScanBoxes(buf).boxes ==>
              |b.hdr.data| <= BoxHeaderSize
              && (b.hdr.size.Int? ==> BoxHeaderSize + |b.data| == b.hdr.size.val)
              && (!b.hdr.size.Int? ==> b.data == [])
    ensures forall b :: b in ScanBoxes(buf).boxes && b.hdr.size.Int? ==>
              (|b.data| == b.hdr.size.val - HdrSize(b.hdr.boxType) <==> b.hdr.boxType !in FullBoxTypes)
    decreases |buf|
  {
    if buf == [] {
    } else if Fits(buf) {
      var tail := buf[HeaderAt(buf).size.val..];
      ScanFits(buf);
      PayloadAfterEightBytes(tail);
      FlattenJoin(FirstBox(buf), ScanBoxes(tail), Flatten(ScanBoxes(tail).boxes) + ScanBoxes(tail).leftover);
    } else {
      ScanStops(buf);
    }
  }

  // ---------------------------------------------------------------------------
  // Split invariance.

  /** A complete first box of `a` is read the same from `a + b`. */
  lemma HeaderOfPrefix(a: seq<byte>, b: seq<byte>)
    requires Fits(a)
    ensures HeaderAt(a + b) == HeaderAt(a)
  {
    assert Slice(a + b, 0, 4) == Slice(a, 0, 4);
    assert Slice(a + b, 4, 8) == Slice(a, 4, 8);
    assert Slice(a + b, 0, 8) == Slice(a, 0, 8);
  }

  lemma ScanPrefixFits(a: seq<byte>, b: seq<byte>)
    requires Fits(a)
    ensures ScanBoxes(a + b) == Join([FirstBox(a)], ScanBoxes(a[HeaderAt(a).size.val..] + b))
  {
    var size := HeaderAt(a).size.val;
    HeaderOfPrefix(a, b);
    ScanFits(a + b);
    assert (a + b)[BoxHeaderSize .. size] == a[BoxHeaderSize .. size];
    assert (a + b)[size..] == a[size..] + b;
  }

  /** Split invariance: as long as a pass ends without losing bytes or throwing,
      passing over `a` and then over the kept tail followed by `b` appends the same
      boxes, keeps the same tail and stops the same way as one pass over `a + b`. */
  lemma {:induction false} ScanConcat(a: seq<byte>, b: seq<byte>)
    requires ScanBoxes(a).stop == Consumed || ScanBoxes(a).stop == NeedMore
    ensures ScanBoxes(a + b) == Join(ScanBoxes(a).boxes, ScanBoxes(ScanBoxes(a).leftover + b))
    decreases |a|
  {
    if a == [] {
      assert a + b == b;
      JoinNothing(ScanBoxes(b));
    } else if Fits(a) {
      var a' := a[HeaderAt(a).size.val..];
      var r' := ScanBoxes(a');
      ScanConcat(a', b);
      ScanFits(a);
      ScanPrefixFits(a, b);
      JoinAssoc([FirstBox(a)], r'.boxes, ScanBoxes(r'.leftover + b));
    } else {
      ScanStops(a);
      JoinNothing(ScanBoxes(a + b));
    }
  }

  /** Where the stream is split matters once a chunk ends 1-3 bytes into a header:
      the box of size NaN is appended and those bytes are dropped.  Here the 8-byte
      box `free` is split after its third byte. */
  lemma ShortTailBreaksSplitInvariance()
    ensures var a: seq<byte> := [0x00, 0x00, 0x00];
            var b: seq<byte> := [0x08, 0x66, 0x72, 0x65, 0x65];
            ScanBoxes(a) == Scan([Box(Header(NaN, [0 as char, 0 as char, 0 as char, 0 as char], a), [])], [], ShortHeader)
            && ScanBoxes(b) == Scan([], b, NeedMore)
            && ScanBoxes(a + b) == Scan([Box(Header(Int(8), "free", a + b), [])], [], Consumed)
  {
    var a: seq<byte> := [0x00, 0x00, 0x00];
    var b: seq<byte> := [0x08, 0x66, 0x72, 0x65, 0x65];
    ShortPrefix(a);
    PendingFree(b);
    WholeFree(a + b);
  }

  lemma ShortPrefix(a: seq<byte>)
    requires a == [0x00, 0x00, 0x00]
    ensures ScanBoxes(a) == Scan([Box(Header(NaN, [0 as char, 0 as char, 0 as char, 0 as char], a), [])], [], ShortHeader)
  {
    assert Slice(a, 0, 4) == a;
    assert Slice(a, 4, 8) == [];
    assert Slice(a, 0, 8) == a;
  }

  lemma PendingFree(b: seq<byte>)
    requires b == [0x08, 0x66, 0x72, 0x65, 0x65]
    ensures ScanBoxes(b) == Scan([], b, NeedMore)
  {
    assert Slice(b, 0, 4) == [0x08, 0x66, 0x72, 0x65];
  }

  lemma WholeFree(w: seq<byte>)
    requires w == [0x00, 0x00, 0x00, 0x08, 0x66, 0x72, 0x65, 0x65]
    ensures ScanBoxes(w) == Scan([Box(Header(Int(8), "free", w), [])], [], Consumed)
  {
    assert Slice(w, 0, 4) == [0, 0, 0, 8];
    assert Slice(w, 4, 8) == [0x66, 0x72, 0x65, 0x65];
    assert Slice(w, 0, 8) == w;
    assert Fits(w);
    ScanFits(w);
    assert w[8..] == [];
    assert w[8..8] == [];
  }

  // ---------------------------------------------------------------------------
  // Writing boxes: the inverse of a pass.

  /** The box a pass materializes from a written entry. */
  function BoxOf(e: Entry): Box
    requires Writable(e)
  {
    Box(Header(Int(8 + |e.payload|), e.boxType, Uint32Bytes(8 + |e.payload|) + FourCCBytes(e.boxType)), e.payload)
  }

  function BoxesOf(es: seq<Entry>): seq<Box>
    requires forall e :: e in es ==> Writable(e)
  {
    if es == [] then [] else [BoxOf(es[0])] + BoxesOf(es[1..])
  }

  lemma FrameFits(e: Entry, rest: seq<byte>)
    requires Writable(e)
    ensures Fits(Frame(e) + rest)
    ensures HeaderAt(Frame(e) + rest).size == Int(|Frame(e)|)
    ensures FirstBox(Frame(e) + rest) == BoxOf(e)
    ensures (Frame(e) + rest)[|Frame(e)|..] == rest
  {
    var size := 8 + |e.payload|;
    var buf := Frame(e) + rest;
    ReadUint32RoundTrip(size);
    Read4CCInverse(e.boxType);
    assert Slice(buf, 0, 4) == Uint32Bytes(size);
    assert Slice(buf, 4, 8) == FourCCBytes(e.boxType);
    assert Slice(buf, 0, 8) == Uint32Bytes(size) + FourCCBytes(e.boxType);
    assert buf[8 .. size] == e.payload;
  }

  /** Reading written boxes back: one pass over the bytes of any list of boxes
      smaller than 2^24 bytes gives back exactly those boxes and keeps nothing. */
  lemma {:induction false} ScanReadsFrames(es: seq<Entry>)
    requires forall e :: e in es ==> Writable(e)
    ensures ScanBoxes(Frames(es)) == Scan(BoxesOf(es), [], Consumed)
    decreases |es|
  {
    if es != [] {
      var rest := Frames(es[1..]);
      FrameFits(es[0], rest);
      ScanFits(Frame(es[0]) + rest);
      ScanReadsFrames(es[1..]);
    }
  }

  // ---------------------------------------------------------------------------
  // The loop of `_parseBoxes`, cursor by cursor.

  /** The header the loop reads at cursor `pos`. */
  function HeaderAtCursor(chunk: seq<byte>, pos: nat): Header
  {
    Header(ReadUint32(Slice(chunk, pos, pos + 4)), Read4CC(Slice(chunk, pos + 4, pos + 8)), Slice(chunk, pos, pos + 8))
  }

  lemma HeaderOfSuffix(chunk: seq<byte>, pos: nat)
    requires pos < |chunk|
    ensures HeaderAt(chunk[pos..]) == HeaderAtCursor(chunk, pos)
  {
    assert Slice(chunk[pos..], 0, 4) == Slice(chunk, pos, pos + 4);
    assert Slice(chunk[pos..], 4, 8) == Slice(chunk, pos + 4, pos + 8);
    assert Slice(chunk[pos..], 0, 8) == Slice(chunk, pos, pos + 8);
  }

  /** The loop ends at cursor `pos` for lack of data: the pass keeps the bytes from `pos`. */
  lemma LoopNeedsMore(chunk: seq<byte>, pos: nat, done: seq<Box>, whole: Scan)
    requires pos < |chunk|
    requires HeaderAtCursor(chunk, pos).size.Int? && pos + HeaderAtCursor(chunk, pos).size.val > |chunk|
    requires whole == Join(done, ScanBoxes(chunk[pos..]))
    ensures whole == Scan(done, chunk[pos..], NeedMore)
  {
    HeaderOfSuffix(chunk, pos);
    ScanStops(chunk[pos..]);
    JoinEmpty(done, chunk[pos..], NeedMore);
  }

  /** The loop ends at cursor `pos` on 1-3 bytes: one empty box of size NaN is appended. */
  lemma LoopShortHeader(chunk: seq<byte>, pos: nat, done: seq<Box>, whole: Scan)
    requires pos < |chunk|
    requires !HeaderAtCursor(chunk, pos).size.Int?
    requires whole == Join(done, ScanBoxes(chunk[pos..]))
    ensures whole == Scan(done + [Box(HeaderAtCursor(chunk, pos), [])], [], ShortHeader)
  {
    HeaderOfSuffix(chunk, pos);
    ScanStops(chunk[pos..]);
  }

  /** The loop throws at cursor `pos` on a size below 8. */
  lemma LoopBadSize(chunk: seq<byte>, pos: nat, done: seq<Box>, whole: Scan)
    requires pos < |chunk|
    requires HeaderAtCursor(chunk, pos).size.Int?
    requires pos + HeaderAtCursor(chunk, pos).size.val <= |chunk| && HeaderAtCursor(chunk, pos).size.val < BoxHeaderSize
    requires whole == Join(done, ScanBoxes(chunk[pos..]))
    ensures whole == Scan(done, [], BadSize)
  {
    HeaderOfSuffix(chunk, pos);
    ScanStops(chunk[pos..]);
    JoinEmpty(done, [], BadSize);
  }

  /** The complete box at cursor `pos` is the first box of what is left from `pos`. */
  lemma BoxAtCursor(chunk: seq<byte>, pos: nat, next: nat)
    requires pos < next <= |chunk|
    requires HeaderAtCursor(chunk, pos).size == Int(next - pos) && BoxHeaderSize <= next - pos
    ensures Fits(chunk[pos..]) && HeaderAt(chunk[pos..]).size.val == next - pos
    ensures FirstBox(chunk[pos..]) == Box(HeaderAtCursor(chunk, pos), chunk[pos + BoxHeaderSize .. next])
    ensures chunk[pos..][next - pos..] == chunk[next..]
  {
    HeaderOfSuffix(chunk, pos);
    RangeOfSuffix(chunk, pos, BoxHeaderSize, next - pos);
    DropOfSuffix(chunk, pos, next - pos);
  }

  lemma RangeOfSuffix(s: seq<byte>, pos: nat, i: nat, j: nat)
    requires i <= j && pos + j <= |s|
    ensures s[pos..][i..j] == s[pos + i .. pos + j]
  {
  }

  lemma DropOfSuffix(s: seq<byte>, pos: nat, i: nat)
    requires pos + i <= |s|
    ensures s[pos..][i..] == s[pos + i..]
  {
  }

  /** The pass from `pos` takes the complete box from `pos` to `next`, then goes
      on from `next`. */
  lemma ScanAtCursor(chunk: seq<byte>, pos: nat, next: nat)
    requires pos < next <= |chunk|
    requires HeaderAtCursor(chunk, pos).size == Int(next - pos) && BoxHeaderSize <= next - pos
    ensures ScanBoxes(chunk[pos..])
            == Join([Box(HeaderAtCursor(chunk, pos), chunk[pos + BoxHeaderSize .. next])], ScanBoxes(chunk[next..]))
  {
    var rest := chunk[pos..];
    BoxAtCursor(chunk, pos, next);
    ScanFits(rest);
    ScanOfSame(rest[HeaderAt(rest).size.val..], chunk[next..]);
  }

  lemma ScanOfSame(a: seq<byte>, b: seq<byte>)
    requires a == b
    ensures ScanBoxes(a) == ScanBoxes(b)
  {
  }

  /** The loop's invariant survives taking the complete box from `pos` to `next`. */
  lemma LoopStep(chunk: seq<byte>, pos: nat, next: nat, done: seq<Box>, whole: Scan)
    requires pos < next <= |chunk|
    requires HeaderAtCursor(chunk, pos).size == Int(next - pos) && BoxHeaderSize <= next - pos
    requires whole == Join(done, ScanBoxes(chunk[pos..]))
    ensures whole == Join(done + [Box(HeaderAtCursor(chunk, pos), chunk[pos + BoxHeaderSize .. next])], ScanBoxes(chunk[next..]))
  {
    ScanAtCursor(chunk, pos, next);
    JoinAssoc(done, [Box(HeaderAtCursor(chunk, pos), chunk[pos + BoxHeaderSize .. next])], ScanBoxes(chunk[next..]));
  }

  /** A tail of `k + c`, where `k` is a tail of `p`, is a tail of `p + c`. */
  lemma SuffixOfConcat(p: seq<byte>, k: seq<byte>, c: seq<byte>, t: seq<byte>)
    requires |k| <= |p| && k == p[|p| - |k|..]
    requires |t| <= |k + c| && t == (k + c)[|k + c| - |t|..]
    ensures |t| <= |p + c| && t == (p + c)[|p + c| - |t|..]
  {
    assert p + c == p[..|p| - |k|] + (k + c);
  }

  /** `kept` is a tail of `stream` and, unless empty, declares more bytes than it
      holds. */
  ghost predicate PendingTail(stream: seq<byte>, kept: seq<byte>)
  {
    |kept| <= |stream| && kept == stream[|stream| - |kept|..]
    && (kept != [] ==> Pending(kept))
  }

  /** The bytes a pass over the kept tail and a new chunk leaves over are a pending
      tail of the stream with that chunk. */
  lemma PendingTailOfPush(stream: seq<byte>, kept: seq<byte>, chunk: seq<byte>, tail: seq<byte>)
    requires PendingTail(stream, kept)
    requires tail == ScanBoxes(kept + chunk).leftover
    ensures PendingTail(stream + chunk, tail)
  {
    ScanKeepsPendingTail(kept + chunk);
    if tail != [] {
      SuffixOfConcat(stream, kept, chunk, tail);
    }
  }

  /** The state `push` keeps while every pass was intact: the boxes and kept tail
      of one pass over the whole stream, stopped only for lack of data. */
  ghost predicate Accounts(stream: seq<byte>, boxes: seq<Box>, kept: seq<byte>)
  {
    ScanBoxes(stream) == Scan(boxes, kept, if kept == [] then Consumed else NeedMore)
  }

  /** The reassembler's state after `stream` was pushed: the kept bytes are a pending
      tail of the stream and, while every pass was intact, boxes and kept bytes are
      what one pass over the whole stream gives. */
  ghost predicate Reassembled(stream: seq<byte>, boxes: seq<Box>, kept: seq<byte>, intact: bool)
  {
    PendingTail(stream, kept)
    && (intact ==> Accounts(stream, boxes, kept))
  }

  /** One `push` keeps that state: the pass over the kept tail followed by the new
      chunk continues the single pass over the whole stream, as long as it too is
      intact. */
  lemma PushKeepsReassembled(stream: seq<byte>, boxes: seq<Box>, kept: seq<byte>, intact: bool, chunk: seq<byte>)
    requires Reassembled(stream, boxes, kept, intact)
    ensures var r := ScanBoxes(kept + chunk);
            Reassembled(stream + chunk, boxes + r.boxes, r.leftover,
                        intact && (r.stop == Consumed || r.stop == NeedMore))
  {
    var r := ScanBoxes(kept + chunk);
    PendingTailOfPush(stream, kept, chunk, r.leftover);
    if intact && (r.stop == Consumed || r.stop == NeedMore) {
      ScanKeepsPendingTail(kept + chunk);
      ScanConcat(stream, chunk);
    }
  }

  // ---------------------------------------------------------------------------
  // The parser object.

  class Fmp4Parser {
    /** Total number of bytes pushed. */
    var size: nat
    /** Bytes of a top-level box not yet complete; empty stands for `undefined`. */
    var bufferedData: seq<byte>
    /** Top-level boxes in stream order. */
    var boxes: seq<Box>

    /** Every byte pushed so far. */
    ghost var pushed: seq<byte>
    /** No pass so far threw or dropped a 1-3 byte tail. */
    ghost var intact: bool

    /** `size` counts the stream; the buffer is a tail of the stream whose first
        four bytes declare more bytes than it holds; and while every pass was
        intact, boxes and buffer are what one pass over the whole stream gives. */
    ghost predicate Valid()
      reads this
    {
      |pushed| == size
      && Reassembled(pushed, boxes, bufferedData, intact)
    }

    /** `new fMP4Parser()` (lines 562-566). */
    constructor ()
      ensures Valid()
      ensures size == 0 && bufferedData == [] && boxes == [] && pushed == [] && intact
    {
      size := 0;
      bufferedData := [];
      boxes := [];
      pushed := [];
      intact := true;
      assert ScanBoxes([]) == Scan([], [], Consumed);
    }

    /** `getBoxes` (lines 568-570): while every pass was intact, the boxes of one
        pass over everything pushed. */
    function GetBoxes(): (r: seq<Box>)
      requires Valid()
      reads this
      ensures intact ==> r == ScanBoxes(pushed).boxes
    {
      boxes
    }

    /** `_parseBoxes(chunk)` (lines 588-608).  `remain` is the number it returns, 0
        standing for `undefined`; `threw` is the `RangeError` of a size below 8, after
        which the boxes appended before it stay appended. */
    method ParseBoxes(chunk: seq<byte>) returns (remain: nat, threw: bool)
      modifies this`boxes
      ensures var r := ScanBoxes(chunk);
              boxes == old(boxes) + r.boxes && threw == (r.stop == BadSize)
              && remain == |r.leftover| <= |chunk| && r.leftover == chunk[|chunk| - remain..]
    {
      remain, threw := 0, false;
      var len := |chunk|;
      var pos: nat := 0;
      ghost var done: seq<Box> := [];
      ghost var whole := ScanBoxes(chunk);
      assert chunk[pos..] == chunk;
      JoinNothing(whole);
      while pos < len
        invariant pos <= len
        invariant boxes == old(boxes) + done
        invariant whole == Join(done, ScanBoxes(chunk[pos..]))
        decreases len - pos
      {
        var hdr := HeaderAtCursor(chunk, pos);
        var size := hdr.size;
        if size.Int? && pos + size.val > len {
          // the box runs past the end: report the bytes from `pos` for keeping
          LoopNeedsMore(chunk, pos, done, whole);
          remain := len - pos;
          return;
        }
        if !size.Int? {
          // `new Uint8Array(NaN - 8)` is empty, and `pos += NaN` ends the loop
          LoopShortHeader(chunk, pos, done, whole);
          assert chunk[len..] == [];
          AppendOne(old(boxes), done, Box(hdr, []));
          boxes := boxes + [Box(hdr, [])];
          return;
        }
        if size.val < BoxHeaderSize {
          LoopBadSize(chunk, pos, done, whole);
          assert chunk[len..] == [];
          threw := true;
          return;
        }
        var next := pos + size.val;
        var box := Box(hdr, chunk[pos + BoxHeaderSize .. next]);
        LoopStep(chunk, pos, next, done, whole);
        AppendOne(old(boxes), done, box);
        boxes := boxes + [box];
        done := done + [box];
        pos := next;
      }
      assert chunk[pos..] == [] == chunk[len..];
      JoinEmpty(done, [], Consumed);
    }

    /** `push(chunk)` (lines 572-586).  `threw` is the `RangeError` escaping from
        `_parseBoxes`: `size` is already counted and the buffer already cleared. */
    method Push(chunk: seq<byte>) returns (threw: bool)
      requires Valid()
      modifies this
      ensures Valid()
      ensures size == old(size) + |chunk| && pushed == old(pushed) + chunk
      ensures var r := ScanBoxes(old(bufferedData) + chunk);
              boxes == old(boxes) + r.boxes && bufferedData == r.leftover
              && threw == (r.stop == BadSize)
              && intact == (old(intact) && (r.stop == Consumed || r.stop == NeedMore))
    {
      ghost var whole := bufferedData + chunk;
      ghost var scan := ScanBoxes(whole);
      ghost var tail := scan.leftover;
      PushKeepsReassembled(pushed, boxes, bufferedData, intact, chunk);
      intact := intact && (scan.stop == Consumed || scan.stop == NeedMore);
      size := size + |chunk|;
      pushed := pushed + chunk;
      var chunkToParse := chunk;
      if |bufferedData| > 0 {
        chunkToParse := bufferedData + chunk;
        bufferedData := [];
      }
      assert chunkToParse == whole;
      var remain;
      remain, threw := ParseBoxes(chunkToParse);
      if remain > 0 {
        bufferedData := chunkToParse[|chunkToParse| - remain..];
      }
      assert bufferedData == tail;
    }
  }
}
