/** Byte-level readers of lib/fmp4_parser.js (lines 14-86), over JavaScript numbers.
    The readers are applied to `Uint8Array` slices that may be shorter than the
    width they read: indexing past the end gives `undefined`, and arithmetic on
    `undefined` gives NaN.  `Num` keeps those outcomes instead of excluding them. */
module Bytes {

  /** One element of a `Uint8Array`. */
  type byte = x: int | 0 <= x < 0x100

  datatype Option<T> = None | Some(value: T)

  /** A JavaScript number as the decoders produce it: an integer, NaN (arithmetic
      on a byte read past the end of a slice) or undefined (`data[i]` past the end). */
  datatype Num = Int(val: int) | NaN | Undefined

  /** A computation of the source that either returns or never terminates
      (`_readString` without a 0 byte, a zero-sized child box). */
  datatype Outcome<T> = Returns(value: T) | Hangs

  function Min(a: nat, b: nat): nat { if a < b then a else b }

  /** `s.slice(from, to)` for non-negative bounds: clamped to the length, empty when
      `to` is not past `from`. */
  function Slice(s: seq<byte>, from: nat, to: nat): (r: seq<byte>)
    ensures from <= to <= |s| ==> r == s[from..to]
    ensures from <= |s| <= to ==> r == s[from..]
    ensures r != [] ==> from + |r| <= to && from + |r| <= |s|
  {
    if |s| <= from || to <= from then [] else if to <= |s| then s[from..to] else s[from..]
  }

  /** `data[i]`: the byte, or undefined past the end. */
  function At(s: seq<byte>, i: nat): Num
  {
    if i < |s| then Int(s[i]) else Undefined
  }

  /** The number a `Uint8Array` of at most one element converts to when it is used
      as an operand of `&` or `>>`: its single byte, or 0 when it is empty. */
  function SingleByte(s: seq<byte>): (b: byte)
    requires |s| <= 1
    ensures |s| == 1 ==> b == s[0]
  {
    if |s| == 0 then 0 else s[0]
  }

  /** `String.fromCharCode(b)`. */
  function CharOf(b: byte): char
  {
    b as char
  }

  /** `String.fromCharCode(bytes[i])`: an index past the end gives code 0. */
  function CharAt(bytes: seq<byte>, i: nat): char
  {
    if i < |bytes| then CharOf(bytes[i]) else 0 as char
  }

  /** `_read4CC` (line 14): four characters, one per byte. */
  function Read4CC(bytes: seq<byte>): (r: string)
    ensures |r| == 4
  {
    [CharAt(bytes, 0), CharAt(bytes, 1), CharAt(bytes, 2), CharAt(bytes, 3)]
  }

  /** The four bytes that spell a four-character code whose codes are below 256. */
  function FourCCBytes(t: string): (r: seq<byte>)
    requires |t| == 4 && forall i :: 0 <= i < 4 ==> t[i] as int < 0x100
    ensures |r| == 4
  {
    [t[0] as int, t[1] as int, t[2] as int, t[3] as int]
  }

  lemma Read4CCInverse(t: string)
    requires |t| == 4 && forall i :: 0 <= i < 4 ==> t[i] as int < 0x100
    ensures Read4CC(FourCCBytes(t)) == t
  {
  }

  /** `_readBit` (line 21) with the mask `1 << (position - 1)`. */
  function ReadBit(b: byte, position: nat): (r: nat)
    requires 1 <= position <= 8
    ensures r <= 1
    ensures position == 8 ==> (r == 1 <==> b >= 0x80)
  {
    if (b / Pow2(position - 1)) % 2 == 0 then 0 else 1
  }

  /** `1 << n`, the mask of bit `n`; for the bits of a byte, the value of that bit. */
  function Pow2(n: nat): (r: nat)
    ensures r >= 1
    ensures n < 8 ==> r == [0x01, 0x02, 0x04, 0x08, 0x10, 0x20, 0x40, 0x80][n]
  {
    if n == 0 then 1 else 2 * Pow2(n - 1)
  }

  /** `_readUint3` (line 26): `(b & 0x70) >> 4`, bits 4..6 of the byte. */
  function ReadUint3(b: byte): (r: nat)
    ensures r < 8
  {
    (b / 16) % 8
  }

  /** `_readUint16` (line 31). */
  function ReadUint16(bytes: seq<byte>): (r: Num)
    ensures r.Int? <==> |bytes| >= 2
    ensures r.Int? ==> 0 <= r.val < 0x1_0000
  {
    if |bytes| < 2 then NaN else Int(bytes[0] as int * 0x100 + bytes[1])
  }

  /** `_readUint24` (line 36). */
  function ReadUint24(bytes: seq<byte>): (r: Num)
    ensures r.Int? <==> |bytes| >= 3
    ensures r.Int? ==> 0 <= r.val < 0x100_0000
  {
    if |bytes| < 3 then NaN else Int(bytes[0] as int * 0x1_0000 + bytes[1] as int * 0x100 + bytes[2])
  }

  /** `_readUint32` (line 52).  JavaScript masks a shift count to five bits, so
      `bytes[0] << 32` is `bytes[0]` itself: the first byte is added, unscaled. */
  function ReadUint32(bytes: seq<byte>): (r: Num)
    ensures r.Int? <==> |bytes| >= 4
    ensures r.Int? ==> 0 <= r.val < 0x100_0000 + 0x100
  {
    if |bytes| < 4 then NaN
    else Int(bytes[0] as int + bytes[1] as int * 0x1_0000 + bytes[2] as int * 0x100 + bytes[3])
  }

  /** `_readUint64` (line 59): the high word is scaled by 65536. */
  function ReadUint64(bytes: seq<byte>): (r: Num)
    ensures r.Int? <==> |bytes| >= 8
  {
    var hi, lo := ReadUint32(Slice(bytes, 0, 4)), ReadUint32(Slice(bytes, 4, 8));
    if hi.Int? && lo.Int? then Int(hi.val * 0x1_0000 + lo.val) else NaN
  }

  /** `_readUint28` (line 42): masks the first byte of its (copied) slice to four bits. */
  function ReadUint28(bytes: seq<byte>): (r: Num)
    ensures r.Int? <==> |bytes| >= 4
  {
    if |bytes| == 0 then ReadUint32(bytes) else ReadUint32(bytes[0 := bytes[0] % 0x10])
  }

  /** `_readUint31` (line 47): masks the first byte of its (copied) slice to seven bits. */
  function ReadUint31(bytes: seq<byte>): (r: Num)
    ensures r.Int? <==> |bytes| >= 4
  {
    if |bytes| == 0 then ReadUint32(bytes) else ReadUint32(bytes[0 := bytes[0] % 0x80])
  }

  /** The two integers that `_readFixedPoint1616` and `_readFixedPoint88` place
      around the point of the decimal string they hand to `parseFloat`. */
  datatype Decimal = Decimal(intPart: Num, fracPart: Num)

  /** `_readFixedPoint1616` (line 65). */
  function FixedPoint1616(bytes: seq<byte>): Decimal
  {
    Decimal(ReadUint16(Slice(bytes, 0, 2)), ReadUint16(Slice(bytes, 2, 4)))
  }

  /** `_readFixedPoint88` (line 71): `NaN & 0xFF00` is 0, so a short read gives "0.0". */
  function FixedPoint88(bytes: seq<byte>): (r: Decimal)
    ensures r.intPart.Int? && r.fracPart.Int?
    ensures |bytes| >= 2 ==> r.intPart.val == bytes[0] && r.fracPart.val == bytes[1]
    ensures |bytes| < 2 ==> r == Decimal(Int(0), Int(0))
  {
    var v := ReadUint16(bytes);
    if v.Int? then Decimal(Int(v.val / 0x100), Int(v.val % 0x100)) else Decimal(Int(0), Int(0))
  }

  /** `!!(flags & mask)` for a one-bit mask; `NaN & mask` is 0. */
  function FlagSet(flags: Num, mask: nat): bool
    requires mask > 0
  {
    flags.Int? && (flags.val / mask) % 2 == 1
  }

  /** The standard reading of a byte sequence as a big-endian unsigned integer. */
  function BigEndian(s: seq<byte>): nat
  {
    if s == [] then 0 else BigEndian(s[..|s| - 1]) * 0x100 + s[|s| - 1]
  }

  lemma BigEndian4(s: seq<byte>)
    requires |s| == 4
    ensures BigEndian(s) == s[0] as int * 0x100_0000 + s[1] as int * 0x1_0000 + s[2] as int * 0x100 + s[3]
  {
    assert s[..3][..2] == s[..2] && s[..2][..1] == s[..1] && s[..1][..0] == [];
    assert BigEndian(s[..1]) == s[0];
    assert BigEndian(s[..2]) == s[0] as int * 0x100 + s[1];
    assert BigEndian(s[..3]) == s[0] as int * 0x1_0000 + s[1] as int * 0x100 + s[2];
  }

  /** `_readUint32` agrees with the big-endian value exactly when the first byte is 0;
      otherwise it falls short by `bytes[0] * (2^24 - 1)`. */
  lemma {:induction false} ReadUint32VersusBigEndian(bytes: seq<byte>)
    requires |bytes| == 4
    ensures BigEndian(bytes) - ReadUint32(bytes).val == bytes[0] as int * 0xFF_FFFF
    ensures ReadUint32(bytes) == Int(BigEndian(bytes)) <==> bytes[0] == 0
  {
    BigEndian4(bytes);
  }

  /** The four big-endian bytes of a value below 2^32. */
  function Uint32Bytes(v: nat): (r: seq<byte>)
    requires v < 0x1_0000_0000
    ensures |r| == 4 && BigEndian(r) == v
  {
    var q1 := v / 0x100;
    var q2 := q1 / 0x100;
    var q3 := q2 / 0x100;
    var r := [q3, q2 % 0x100, q1 % 0x100, v % 0x100];
    BigEndian4(r);
    r
  }

  /** Writing a value big-endian and reading it back with `_readUint32` gives the
      value back exactly for values below 2^24. */
  lemma {:induction false} ReadUint32RoundTrip(v: nat)
    requires v < 0x1_0000_0000
    ensures ReadUint32(Uint32Bytes(v)) == Int(v) <==> v < 0x100_0000
  {
    ReadUint32VersusBigEndian(Uint32Bytes(v));
  }

  /** The big-endian value of eight bytes is the high word scaled by 2^32 plus
      the low word. */
  lemma BigEndian8(s: seq<byte>)
    requires |s| == 8
    ensures BigEndian(s) == BigEndian(s[..4]) * 0x1_0000_0000 + BigEndian(s[4..])
  {
    var lo := s[4..];
    assert s[..7][..6] == s[..6] && s[..6][..5] == s[..5] && s[..5][..4] == s[..4];
    BigEndian4(lo);
    assert BigEndian(s[..5]) == BigEndian(s[..4]) * 0x100 + lo[0];
    assert BigEndian(s[..6]) == BigEndian(s[..4]) * 0x1_0000 + lo[0] as int * 0x100 + lo[1];
    assert BigEndian(s[..7]) == BigEndian(s[..4]) * 0x100_0000 + lo[0] as int * 0x1_0000 + lo[1] as int * 0x100 + lo[2];
  }

  /** `_readUint64` falls short of the big-endian value of its eight bytes by a
      sum with a positive weight on each of the first five bytes, so the two agree
      exactly when those five bytes are 0. */
  lemma {:induction false} ReadUint64VersusBigEndian(bytes: seq<byte>)
    requires |bytes| == 8
    ensures BigEndian(bytes) - ReadUint64(bytes).val
            == bytes[0] as int * (0x100_0000_0000_0000 - 0x1_0000)
               + bytes[1] as int * (0x1_0000_0000_0000 - 0x1_0000_0000)
               + bytes[2] as int * (0x100_0000_0000 - 0x100_0000)
               + bytes[3] as int * (0x1_0000_0000 - 0x1_0000)
               + bytes[4] as int * 0xFF_FFFF
    ensures ReadUint64(bytes) == Int(BigEndian(bytes))
            <==> bytes[0] == bytes[1] == bytes[2] == bytes[3] == bytes[4] == 0
  {
    var hi, lo := bytes[..4], bytes[4..];
    assert Slice(bytes, 0, 4) == hi && Slice(bytes, 4, 8) == lo;
    BigEndian8(bytes);
    BigEndian4(hi);
    BigEndian4(lo);
  }

  /** `_readUint64` agrees with the big-endian value of its eight bytes when the
      first five are 0 (its high word is scaled by 2^16, not 2^32). */
  lemma {:induction false} ReadUint64AgreesWhenHighWordZero(bytes: seq<byte>)
    requires |bytes| == 8
    requires bytes[0] == bytes[1] == bytes[2] == bytes[3] == bytes[4] == 0
    ensures ReadUint64(bytes) == Int(BigEndian(bytes))
  {
    var s := bytes;
    assert s[..7][..6][..5][..4] == s[..4];
    assert s[..7][..6] == s[..6] && s[..6][..5] == s[..5] && s[..5][..4] == s[..4];
    assert BigEndian(s[..4]) == 0 by { BigEndian4(s[..4]); }
    assert BigEndian(s[..5]) == 0;
    assert BigEndian(s[..6]) == s[5];
    assert BigEndian(s[..7]) == s[5] as int * 0x100 + s[6];
    assert BigEndian(s) == s[5] as int * 0x1_0000 + s[6] as int * 0x100 + s[7];
  }

  /** `_readString` (line 78): the characters before the first 0 byte; the source
      loop never ends when the slice holds no 0 byte. */
  function CString(bytes: seq<byte>): (r: Outcome<string>)
    ensures r.Returns? <==> 0 in bytes
    ensures r.Returns? ==> |r.value| < |bytes| && bytes[|r.value|] == 0
    ensures r.Returns? ==> forall k :: 0 <= k < |r.value| ==> bytes[k] != 0 && r.value[k] == CharOf(bytes[k])
  {
    if |bytes| == 0 then Hangs
    else if bytes[0] == 0 then Returns([])
    else match CString(bytes[1..])
      case Hangs => Hangs
      case Returns(s) => Returns([CharOf(bytes[0])] + s)
  }

  /** `_readString` as the source writes it, a loop over the slice; the caller must
      supply a 0 byte, since without one the source loop does not terminate. */
  method ReadString(bytes: seq<byte>) returns (s: string)
    requires 0 in bytes
    ensures CString(bytes) == Returns(s)
  {
    s := "";
    var i := 0;
    while bytes[i] != 0
      invariant 0 <= i < |bytes| && 0 in bytes[i..]
      invariant forall k :: 0 <= k < i ==> bytes[k] != 0
      invariant |s| == i && forall k :: 0 <= k < i ==> s[k] == CharOf(bytes[k])
      decreases |bytes| - i
    {
      s := s + [CharOf(bytes[i])];
      i := i + 1;
    }
    var r := CString(bytes);
    assert |r.value| == i;
    assert r.value == s;
  }
}
