/** The settings a scan runs with, derived from the command-line values in
    `DoWork` (bstrings/Program.cs): minimum and maximum string length, chunk
    size, and the check of the code page before anything is scanned. */
module Config {
  import opened Wrappers
  import opened Bytes
  import opened Carving

  /** `-m` when it is not positive. */
  const DefaultMinLength: int := 3
  /** `-b` when it is outside 1..1024. */
  const DefaultChunkSizeMb: int := 512
  const MaxChunkSizeMb: int := 1024
  const MiB: int := 1024 * 1024

  /** The range of a C# `int`. */
  const Int32Min: int := -0x8000_0000
  const Int32Max: int := 0x7FFF_FFFF
  const TwoTo32: int := 0x1_0000_0000

  /** `minLength`: `-m` when positive, otherwise the default of 3. */
  function MinLength(m: int): (r: int)
    ensures r >= 1
    ensures m > 0 ==> r == m
    ensures m <= 0 ==> r == DefaultMinLength
  {
    if m > 0 then m else DefaultMinLength
  }

  /** `maxLength`: `-x` when it exceeds the minimum, otherwise -1 (no
      maximum). A maximum, when there is one, always exceeds the minimum. */
  function MaxLength(x: int, minLength: int): (r: int)
    ensures r == -1 || r > minLength
    ensures r == x <==> x > minLength || x == -1
  {
    if x > minLength then x else -1
  }

  /** `chunkSizeMb`: `-b` when it lies in 1..1024, otherwise 512. */
  function ChunkSizeMb(b: int): (r: int)
    ensures 1 <= r <= MaxChunkSizeMb
    ensures r == b <==> 1 <= b <= MaxChunkSizeMb || b == DefaultChunkSizeMb
  {
    if b < 1 || b > MaxChunkSizeMb then DefaultChunkSizeMb else b
  }

  /** `chunkSizeBytes`: the chunk size in bytes, a whole number of mebibytes
      between 1 MiB and 1 GiB, so the `int` product never overflows. */
  function ChunkSizeBytes(chunkSizeMb: int): (r: int)
    requires 1 <= chunkSizeMb <= MaxChunkSizeMb
    ensures MiB <= r <= MaxChunkSizeMb * MiB <= Int32Max
    ensures r % MiB == 0 && r / MiB == chunkSizeMb
  {
    chunkSizeMb * 1024 * 1024
  }

  /** The two's complement wrap-around of C# `int` arithmetic: the value in
      the `int` range that agrees with `v` modulo 2^32. */
  function Wrap32(v: int): (r: int)
    ensures Int32Min <= r <= Int32Max
    ensures (v - r) % TwoTo32 == 0
    ensures Int32Min <= v <= Int32Max ==> r == v
  {
    var t := v % TwoTo32;
    if t > Int32Max then t - TwoTo32 else t
  }

  /** The settings of one scan. */
  datatype Settings = Settings(
    minLength: int,
    maxLength: int,
    chunkSizeMb: int,
    m: int,
    unicode: bool,
    ascii: bool,
    withOffsets: bool,
    ur: string,
    ar: string)
  {
    /** What clamping guarantees. */
    predicate Valid()
    {
      && minLength >= 1
      && (maxLength == -1 || maxLength > minLength)
      && 1 <= chunkSizeMb <= MaxChunkSizeMb
      && Int32Min <= m <= Int32Max
    }

    /** The chunk size in bytes. */
    function ChunkSize(): (r: int)
      requires Valid()
      ensures MiB <= r <= MaxChunkSizeMb * MiB
    {
      ChunkSizeBytes(chunkSizeMb)
    }
  }

  /** The settings `DoWork` derives from `-m`, `-x`, `-b`, `-a`, `-u`,
      `--off`, `--ar` and `--ur`; `m` itself is kept, since the boundary pass
      uses it unclamped. */
  function Clamp(m: int, x: int, b: int, unicode: bool, ascii: bool, withOffsets: bool,
                 ur: string, ar: string): (s: Settings)
    requires Int32Min <= m <= Int32Max
    ensures s.Valid()
    ensures s.m == m && s.minLength == MinLength(m) && s.maxLength == MaxLength(x, MinLength(m))
    ensures s.chunkSizeMb == ChunkSizeMb(b)
  {
    var minLength := MinLength(m);
    Settings(minLength, MaxLength(x, minLength), ChunkSizeMb(b), m, unicode, ascii, withOffsets, ur, ar)
  }

  /** The default command line (-m 3, -b 512, -x -1) gives a minimum of 3,
      no maximum and 512 MiB chunks. */
  lemma DefaultSettings(unicode: bool, ascii: bool, withOffsets: bool, ur: string, ar: string)
    ensures var s := Clamp(3, -1, 512, unicode, ascii, withOffsets, ur, ar);
      s.minLength == 3 && s.maxLength == -1 && s.ChunkSize() == 512 * MiB
  {
  }

  /** `CodePagesEncodingProvider.Instance.GetEncoding`: the encoding a code
      page identifier names, if the provider knows it. */
  type CodePageLookup = int -> Option<Codec>

  /** The code-page check as written: it asks the provider for code page 1252
      whatever `--cp` says, so it never rejects anything when 1252 exists. */
  predicate CodePageAcceptedAsWritten(lookup: CodePageLookup, cp: int)
  {
    lookup(1252).Some?
  }

  /** The code-page check as intended: the scan goes ahead only when the
      code page given by `--cp` exists. */
  predicate CodePageAccepted(lookup: CodePageLookup, cp: int)
  {
    lookup(cp).Some?
  }

  /** A provider that knows only code page 1252. */
  function Only1252(codec: Codec): CodePageLookup
  {
    c => if c == 1252 then Some(codec) else None
  }

  /** With the check as written, an unknown code page (here 99, which no
      provider defines; the provider here knows only 1252) passes, and then the first code-page carving of a
      window fails on the null encoding whatever the window holds. */
  lemma UnknownCodePagePassesCheckAsWritten(codec: Codec, eng: Engines, bytes: seq<byte>, ar: string,
                                            minSize: int, maxSize: int, currentOffset: int, withOffsets: bool)
    requires eng.codePage == Only1252(codec)(99)
    ensures CodePageAcceptedAsWritten(Only1252(codec), 99)
    ensures !CodePageAccepted(Only1252(codec), 99)
    ensures AsciiHits(bytes, minSize, maxSize, currentOffset, withOffsets, ar, eng).None?
  {
  }

  /** With the intended check, a scan that goes ahead always has its code
      page, so code-page carving fails only when the regex is rejected. */
  lemma AcceptedCodePageCarves(lookup: CodePageLookup, cp: int, eng: Engines, bytes: seq<byte>, ar: string,
                               minSize: int, maxSize: int, currentOffset: int, withOffsets: bool)
    requires CodePageAccepted(lookup, cp) && eng.codePage == lookup(cp)
    ensures AsciiHits(bytes, minSize, maxSize, currentOffset, withOffsets, ar, eng).None?
        <==> !eng.regex.accepts(ar + Quantifier(minSize, maxSize))
  {
  }

  /** `-ms`: a file larger than a positive maximum size is skipped. */
  predicate SkipsFile(ms: int, fileSize: int)
  {
    ms > 0 && fileSize > ms
  }
}
