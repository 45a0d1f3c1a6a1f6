/** The benchmark fixture generator (dev-tools/benchmark-generator/Program.cs):
    a memory stream filled with random bytes remapped out of the printable
    ASCII range, and then two strings planted over it at fixed positions,
    one of them across the 20 MiB seam. The random source is the sequence
    `draws` of the values `Random.Next(maxRng)` returns. */
module Generator {
  import opened Bytes
  import opened Config
  import Planner
  import Carving

  /** The size of the generated file: 512 MiB. */
  const FileSize: int := 512 * 1024 * 1024

  /** The printable ASCII range the carver recognises, `0x20..0x7E`. */
  const AsciiLower: int := 0x20
  const AsciiUpper: int := 0x7E

  /** The number of byte values outside that range, and so the bound passed
      to `Random.Next`. */
  const MaxRng: int := 256 - (AsciiUpper - AsciiLower + 1)

  /** The position the UNC path is planted at. */
  const UncOffset: int := 0x0400_0000

  /** A byte the ASCII carver accepts. */
  predicate Printable(b: int)
  {
    AsciiLower <= b <= AsciiUpper
  }

  /** One draw moved past the printable range: values below it are kept,
      the others shifted up by the width of the range. The result type
      states that the `(byte)` cast loses nothing. */
  function Remap(draw: int): byte
    requires 0 <= draw < MaxRng
  {
    if draw >= AsciiLower then draw + (AsciiUpper - AsciiLower + 1) else draw
  }

  /** The draw a non-printable byte comes from. */
  function Unremap(b: byte): int
  {
    if b > AsciiUpper then b - (AsciiUpper - AsciiLower + 1) else b
  }

  /** `maxRng` is 161: the draws are `0..160`. */
  lemma MaxRngValue()
    ensures MaxRng == 161
  {
  }

  /** A remapped draw is never printable, and the remapping is a one-to-one
      correspondence between the draws and the non-printable bytes. */
  lemma RemapSpec(draw: int, b: byte)
    requires 0 <= draw < MaxRng
    ensures !Printable(Remap(draw))
    ensures Unremap(Remap(draw)) == draw
    ensures !Printable(b) ==> 0 <= Unremap(b) < MaxRng && Remap(Unremap(b)) == b
  {
  }

  /** The bytes `Encoding.Unicode` gives for characters of the basic
      multilingual plane below the surrogates: each as two bytes, low byte
      first. */
  function Utf16Le(s: string): (r: seq<byte>)
    requires forall i :: 0 <= i < |s| ==> s[i] as int < 0xD800
    ensures |r| == 2 * |s|
  {
    if s == [] then []
    else
      var c := s[|s| - 1] as int;
      Utf16Le(s[..|s| - 1]) + [c % 256, c / 256]
  }

  /** The two bytes of each character, low byte first. */
  lemma {:induction false} Utf16LeAt(s: string, i: int)
    requires forall k :: 0 <= k < |s| ==> s[k] as int < 0xD800
    requires 0 <= i < |s|
    ensures Utf16Le(s)[2 * i] == (s[i] as int) % 256
    ensures Utf16Le(s)[2 * i + 1] == (s[i] as int) / 256
  {
    if i < |s| - 1 {
      Utf16LeAt(s[..|s| - 1], i);
    }
  }

  /** The bytes `Encoding.ASCII` gives for ASCII characters: one each. */
  function Ascii(s: string): (r: seq<byte>)
    requires forall i :: 0 <= i < |s| ==> s[i] as int < 128
    ensures |r| == |s|
  {
    if s == [] then [] else Ascii(s[..|s| - 1]) + [s[|s| - 1] as int]
  }

  /** Each byte is its character's code. */
  lemma {:induction false} AsciiAt(s: string, i: int)
    requires forall k :: 0 <= k < |s| ==> s[k] as int < 128
    requires 0 <= i < |s|
    ensures Ascii(s)[i] == s[i] as int
  {
    if i < |s| - 1 {
      AsciiAt(s[..|s| - 1], i);
    }
  }

  /** The text planted across the 20 MiB seam, as `Encoding.Unicode` bytes. */
  function BoundaryText(): (r: seq<byte>)
    ensures |r| == 48
  {
    Utf16Le("DFIR with bstrings rocks")
  }

  /** The UNC path `\\.\root`, as `Encoding.ASCII` bytes. */
  function UncPath(): (r: seq<byte>)
    ensures |r| == 8
  {
    Ascii("\\\\.\\root")
  }

  /** The boundary text is what the Unicode carver looks for: printable
      characters, each followed by a zero byte. */
  lemma BoundaryTextPrintable()
    ensures forall i :: 0 <= i < 24 ==> Printable(BoundaryText()[2 * i]) && BoundaryText()[2 * i + 1] == 0
  {
    var text := "DFIR with bstrings rocks";
    forall i | 0 <= i < 24 ensures Printable(BoundaryText()[2 * i]) && BoundaryText()[2 * i + 1] == 0 {
      Utf16LeAt(text, i);
    }
  }

  /** The UNC path is what the ASCII carver looks for: printable bytes. */
  lemma UncPathPrintable()
    ensures forall i :: 0 <= i < 8 ==> Printable(UncPath()[i])
  {
    var unc := "\\\\.\\root";
    forall i | 0 <= i < 8 ensures Printable(UncPath()[i]) {
      AsciiAt(unc, i);
    }
  }

  /** Where the boundary text goes: half its byte length before 20 MiB. */
  function TextOffset(): int
  {
    20 * 1024 * 1024 - |BoundaryText()| / 2
  }

  /** `s` with `bytes` written at `pos`, as `MemoryStream.Write` leaves it:
      the bytes replace those under them, the stream grows to hold them, and
      a gap between the old end and `pos` reads as zeros. */
  function Overwrite(s: seq<byte>, pos: nat, bytes: seq<byte>): seq<byte>
  {
    var n := if pos + |bytes| > |s| then pos + |bytes| else |s|;
    seq(n, j => if pos <= j < pos + |bytes| then bytes[j - pos] else if 0 <= j < |s| then s[j] else 0)
  }

  /** A write reads back as the bytes written, leaves every other byte
      as it was, and fills a gap with zeros. */
  lemma OverwriteSpec(s: seq<byte>, pos: nat, bytes: seq<byte>)
    ensures var r := Overwrite(s, pos, bytes);
      && |r| == (if pos + |bytes| > |s| then pos + |bytes| else |s|)
      && r[pos..pos + |bytes|] == bytes
      && (forall j :: 0 <= j < |s| && !(pos <= j < pos + |bytes|) ==> r[j] == s[j])
      && (forall j :: |s| <= j < pos ==> r[j] == 0)
  {
  }

  /** Writing at the end appends. */
  lemma OverwriteAtEnd(s: seq<byte>, bytes: seq<byte>)
    ensures Overwrite(s, |s|, bytes) == s + bytes
  {
  }

  /** The stream after the fill loop: one remapped byte per draw, in order. */
  function Fill(draws: seq<int>): (r: seq<byte>)
    requires forall i :: 0 <= i < |draws| ==> 0 <= draws[i] < MaxRng
  {
    if draws == [] then [] else Fill(draws[..|draws| - 1]) + [Remap(draws[|draws| - 1])]
  }

  /** The fill writes exactly one byte per draw, the k-th being the k-th draw
      remapped, and none of them printable. */
  lemma {:induction false} FillSpec(draws: seq<int>)
    requires forall i :: 0 <= i < |draws| ==> 0 <= draws[i] < MaxRng
    ensures var r := Fill(draws);
      && |r| == |draws|
      && (forall i :: 0 <= i < |r| ==> r[i] == Remap(draws[i]) && !Printable(r[i]))
  {
    if draws != [] {
      var init := draws[..|draws| - 1];
      FillSpec(init);
      forall i | 0 <= i < |draws| ensures Fill(draws)[i] == Remap(draws[i]) && !Printable(Fill(draws)[i]) {
        RemapSpec(draws[i], 0);
        if i < |init| {
          assert init[i] == draws[i];
        }
      }
    }
  }

  /** The file content: the filled stream with the boundary text and then
      the UNC path written over it. */
  function Benchmark(draws: seq<int>): seq<byte>
    requires forall i :: 0 <= i < |draws| ==> 0 <= draws[i] < MaxRng
  {
    Overwrite(Overwrite(Fill(draws), TextOffset(), BoundaryText()), UncOffset, UncPath())
  }

  /** In the benchmark file the boundary text covers `[20 MiB - 24, 20 MiB + 24)`
      and the UNC path `[0x04000000, 0x04000008)`; every other byte is its
      draw remapped, so the only printable bytes are planted ones. */
  lemma BenchmarkLayout(draws: seq<int>)
    requires |draws| == FileSize
    requires forall i :: 0 <= i < |draws| ==> 0 <= draws[i] < MaxRng
    ensures var r := Benchmark(draws);
      && |r| == FileSize
      && TextOffset() == 20 * MiB - 24
      && r[TextOffset()..TextOffset() + 48] == BoundaryText()
      && r[UncOffset..UncOffset + 8] == UncPath()
      && (forall i :: 0 <= i < FileSize && !(TextOffset() <= i < TextOffset() + 48) && !(UncOffset <= i < UncOffset + 8) ==>
            r[i] == Remap(draws[i]))
      && (forall i :: 0 <= i < FileSize && Printable(r[i]) ==>
            TextOffset() <= i < TextOffset() + 48 || UncOffset <= i < UncOffset + 8)
  {
    var filled := Fill(draws);
    FillSpec(draws);
    var t := Overwrite(filled, TextOffset(), BoundaryText());
    OverwriteSpec(filled, TextOffset(), BoundaryText());
    OverwriteSpec(t, UncOffset, UncPath());
  }

  /** The boundary text straddles the seam at 20 MiB, and the UNC path no
      seam of a 10 MiB chunking. */
  lemma PlantedAcrossSeam(k: int)
    ensures Planner.Straddles(TextOffset(), |BoundaryText()|, 20 * MiB)
    ensures !Planner.Straddles(UncOffset, |UncPath()|, k * (10 * MiB))
  {
    if k <= 6 {
      Planner.MulMonotone(k, 6, 10 * MiB);
    } else {
      Planner.MulMonotone(7, k, 10 * MiB);
    }
  }

  /** Scanning the benchmark file with 10 MiB chunks and `-m 3`, the second
      boundary window, centred on the 20 MiB seam, spans the whole boundary
      text, 36 bytes (18 characters) in. A boundary pass that positions the
      stream at the window would carve the text there and report the Unicode
      offset 0x27FFFAC, twice the window start plus the character index,
      while the text begins at 0x13FFFE8. The pass as written reads zeros
      into this window (`Scanner.UnseekedWindowMissesStraddlingRun`) and
      reports nothing from it. */
  lemma BoundaryTextReportedOffset()
    ensures var ws := Planner.BoundaryWindows(FileSize, 10 * MiB, 3);
      && 2 <= |ws|
      && ws[1] == Planner.Window(20 * MiB - 60, 120)
      && ws[1].offset <= TextOffset() && TextOffset() + |BoundaryText()| <= ws[1].offset + ws[1].length
      && TextOffset() - ws[1].offset == 2 * 18
      && Carving.UnicodeOffset(ws[1].offset, 18) == 0x27FFFAC
      && TextOffset() == 0x13FFFE8
  {
    PlantedAcrossSeam(0);
    Planner.SeamCoverage(FileSize, 10 * MiB, 3, 2, TextOffset(), |BoundaryText()|);
    Planner.BoundaryWindowsShape(FileSize, 10 * MiB, 3);
  }

  /** `System.IO.MemoryStream` over a buffer of fixed capacity: the bytes
      written so far (`length` of them) and the cursor `position`. Growing
      the buffer is not modelled; writes stay within the capacity. */
  class MemoryStream {
    const buffer: array<byte>
    var length: int
    var position: int

    predicate Valid()
      reads this
    {
      0 <= length <= buffer.Length && 0 <= position
    }

    /** The stream's content. */
    function Contents(): seq<byte>
      reads this, buffer
      requires Valid()
    {
      buffer[..length]
    }

    /** `new MemoryStream(capacity)`: empty, cursor at 0. */
    constructor (capacity: nat)
      ensures Valid() && buffer.Length == capacity && fresh(buffer)
      ensures Contents() == [] && position == 0
    {
      buffer := new byte[capacity](_ => 0);
      length := 0;
      position := 0;
    }

    /** The `Position` setter. */
    method SetPosition(p: int)
      requires Valid() && 0 <= p
      modifies this
      ensures Valid() && position == p && length == old(length)
    {
      position := p;
    }

    /** Grows the stream to `end` bytes, the new bytes cleared. */
    method Extend(end: int)
      requires Valid() && length < end <= buffer.Length
      modifies this, buffer
      ensures Valid() && length == end && position == old(position)
      ensures Contents() == old(Contents()) + Zeros(end - old(length))
    {
      ghost var before := Contents();
      for j := length to end
        invariant Valid() && length == old(length) && position == old(position)
        invariant buffer[..length] == before
        invariant forall i :: length <= i < j ==> buffer[i] == 0
      {
        buffer[j] := 0;
      }
      assert buffer[..end] == before + Zeros(end - length);
      length := end;
    }

    /** `WriteByte`: the byte at the cursor, the cursor one further. */
    method WriteByte(b: byte)
      requires Valid() && position < buffer.Length
      modifies this, buffer
      ensures Valid() && position == old(position) + 1
      ensures Contents() == Overwrite(old(Contents()), old(position), [b])
    {
      ghost var before := Contents();
      if position >= length {
        Extend(position + 1);
      }
      buffer[position] := b;
      assert Contents() == Overwrite(before, old(position), [b]);
      position := position + 1;
    }

    /** `Write(bytes, 0, bytes.Length)`: the bytes at the cursor, the cursor
        past them. */
    method Write(bytes: seq<byte>)
      requires Valid() && position + |bytes| <= buffer.Length
      modifies this, buffer
      ensures Valid() && position == old(position) + |bytes|
      ensures Contents() == Overwrite(old(Contents()), old(position), bytes)
    {
      ghost var before := Contents();
      var end := position + |bytes|;
      if end > length {
        Extend(end);
      }
      ghost var grown := Contents();
      for i := 0 to |bytes|
        invariant Valid() && |grown| == length && position == old(position)
        invariant position + |bytes| <= length
        invariant forall j :: 0 <= j < length ==>
          buffer[j] == if position <= j < position + i then bytes[j - position] else grown[j]
      {
        buffer[position + i] := bytes[i];
      }
      assert Contents() == Overwrite(before, position, bytes);
      position := end;
    }
  }

  /** The generator: the fill loop over the draws, then the two planted
      writes, then the cursor back at the start. */
  method Generate(draws: seq<int>) returns (ms: MemoryStream)
    requires |draws| == FileSize
    requires forall i :: 0 <= i < |draws| ==> 0 <= draws[i] < MaxRng
    ensures fresh(ms) && ms.Valid() && ms.position == 0
    ensures ms.Contents() == Benchmark(draws)
  {
    ms := new MemoryStream(FileSize);
    for i := 0 to FileSize
      invariant fresh(ms) && fresh(ms.buffer)
      invariant ms.Valid() && ms.buffer.Length == FileSize && ms.position == i
      invariant ms.Contents() == Fill(draws[..i])
    {
      var nextByte := draws[i];
      if nextByte >= AsciiLower {
        nextByte := nextByte + (AsciiUpper - AsciiLower + 1);
      }
      assert nextByte == Remap(draws[i]);
      ghost var before := ms.Contents();
      ms.WriteByte(nextByte);
      FillSpec(draws[..i]);
      OverwriteAtEnd(before, [nextByte]);
      assert draws[..i + 1][..i] == draws[..i];
      assert Fill(draws[..i + 1]) == before + [nextByte];
    }
    assert draws[..FileSize] == draws;
    var text := BoundaryText();
    ms.SetPosition(20 * MiB - |text| / 2);
    ms.Write(text);
    var unc := UncPath();
    ms.SetPosition(UncOffset);
    ms.Write(unc);
    ms.SetPosition(0);
  }
}
