/** The box record of lib/fmp4_parser.js: `MP4Box` (lines 540-560) and the
    per-type header-length table `HDR_SIZE_PER_TYPE` (lines 108-169). */
module Boxes {
  import opened Bytes

  /** Every box the source slices, top-level or child, loses exactly this many
      header bytes (`MP4BOX_HDR_SIZE`, line 107), whatever its table entry says. */
  const BoxHeaderSize: nat := 8

  /** The keys of `HDR_SIZE_PER_TYPE`, each mapped to 12 there. */
  const FullBoxTypes: set<string> := {
    "pdin", "mvhd", "tkhd", "trgr", "mdhd", "nmhd", "stsd", "stts", "cslg", "stss",
    "stsh", "sdtp", "elst", "dref", "stsz", "stz2", "stsc", "stco", "co64", "padb",
    "subs", "saiz", "saio", "mehd", "tfhd", "trun", "tfra", "mfro", "tfdt", "leva",
    "trep", "assp", "sbgp", "sgpd", "cprt", "tsel", "kind", "meta", "xml ", "bxml",
    "iloc", "pitm", "ipro", "iinf", "mere", "iref", "schm", "fiin", "fpar", "fecr",
    "gitn", "fire", "stri", "stsg", "stvi", "trex", "hdlr", "sidx", "ssix", "prft"
  }

  /** The `hdr` object of an `MP4Box`: declared size (NaN when fewer than four
      bytes were left to read it from), type and the raw header bytes.  Its
      `hdrsize` is a function of the type alone, `HdrSize(boxType)`, and is never
      used to slice: every box loses `BoxHeaderSize` bytes. */
  datatype Header = Header(size: Num, boxType: string, data: seq<byte>)

  /** An `MP4Box` with its raw payload (`data`). */
  datatype Box = Box(hdr: Header, data: seq<byte>)

  /** `HDR_SIZE_PER_TYPE[type] || 8`.  No key of `Object.prototype` has four
      characters, so a lookup of a four-character type finds only the table's own keys. */
  function HdrSize(t: string): (n: nat)
    ensures n == 8 || n == 12
    ensures n == 12 <==> t in FullBoxTypes
  {
    if t in FullBoxTypes then 12 else 8
  }

  /** `n` zero bytes, as a freshly allocated `Uint8Array(n)` holds. */
  function Zeros(n: nat): (r: seq<byte>)
    ensures |r| == n && forall i :: 0 <= i < n ==> r[i] == 0
  {
    seq(n, _ => 0)
  }

  /** `new Uint8Array(n)` followed by `.set(s)`: `s` then zeros up to length `n`. */
  function Pad(s: seq<byte>, n: nat): (r: seq<byte>)
    requires |s| <= n
    ensures |r| == n && r[..|s|] == s
  {
    s + Zeros(n - |s|)
  }

  lemma PadAt(s: seq<byte>, n: nat, i: nat)
    requires |s| <= n && i < n
    ensures Pad(s, n)[i] == if i < |s| then s[i] else 0
  {
    if i < |s| {
      assert Pad(s, n)[..|s|][i] == s[i];
    } else {
      assert Pad(s, n)[i] == Zeros(n - |s|)[i - |s|];
    }
  }

  // Writing boxes, the inverse of reading them.

  /** A box to write: a four-character type and a payload. */
  datatype Entry = Entry(boxType: string, payload: seq<byte>)

  /** A box the readers read back: a type of byte-sized characters, and a size
      below 2^24, where `_readUint32` agrees with big-endian order. */
  ghost predicate Writable(e: Entry)
  {
    |e.boxType| == 4 && (forall i :: 0 <= i < 4 ==> e.boxType[i] as int < 0x100)
    && 8 + |e.payload| < 0x100_0000
  }

  /** The bytes of one box: big-endian size, type, payload. */
  function Frame(e: Entry): (r: seq<byte>)
    requires Writable(e)
    ensures |r| == 8 + |e.payload|
  {
    Uint32Bytes(8 + |e.payload|) + FourCCBytes(e.boxType) + e.payload
  }

  function Frames(es: seq<Entry>): seq<byte>
    requires forall e :: e in es ==> Writable(e)
  {
    if es == [] then [] else Frame(es[0]) + Frames(es[1..])
  }
}
