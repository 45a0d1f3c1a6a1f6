/** The windows a scan reads (`DoWork` in bstrings/Program.cs). The primary
    pass covers the file with consecutive chunks; the boundary pass then
    looks again at a stretch of `40 * m` bytes centred on each seam between
    two chunks, so that a string split by a seam is seen whole. */
module Planner {
  import opened Config

  /** A window of the file: where it starts and how many bytes it spans. */
  datatype Window = Window(offset: int, length: int)

  /** The primary windows from `offset` on: a chunk of `chunk` bytes, or of
      the bytes that remain when fewer do, until nothing remains. */
  function PrimaryWindowsFrom(fileSize: int, chunk: int, offset: int): seq<Window>
    requires chunk > 0
    decreases fileSize - offset
  {
    if fileSize - offset <= 0 then []
    else
      var length := if fileSize - offset <= chunk then fileSize - offset else chunk;
      [Window(offset, length)] + PrimaryWindowsFrom(fileSize, chunk, offset + length)
  }

  /** The primary windows of a file. */
  function PrimaryWindows(fileSize: int, chunk: int): seq<Window>
    requires chunk > 0
  {
    PrimaryWindowsFrom(fileSize, chunk, 0)
  }

  /** From `offset` on, the primary windows start at `offset`, `offset +
      chunk`, ...; each spans `chunk` bytes except the last, which spans the
      rest of the file; there are just enough of them to reach the end. */
  lemma {:induction false} PrimaryWindowsFromShape(fileSize: int, chunk: int, offset: int)
    requires chunk > 0 && offset <= fileSize
    ensures var ws := PrimaryWindowsFrom(fileSize, chunk, offset); var n := |ws|;
      && (forall k :: 0 <= k < n ==> ws[k].offset == offset + k * chunk)
      && (forall k :: 0 <= k < n - 1 ==> ws[k].length == chunk)
      && (n > 0 ==> 0 < ws[n - 1].length <= chunk && ws[n - 1].offset + ws[n - 1].length == fileSize)
      && (n == 0 <==> offset == fileSize)
      && (n > 0 ==> offset + (n - 1) * chunk < fileSize <= offset + n * chunk)
    decreases fileSize - offset
  {
    var ws := PrimaryWindowsFrom(fileSize, chunk, offset);
    if fileSize - offset > chunk {
      var rest := PrimaryWindowsFrom(fileSize, chunk, offset + chunk);
      PrimaryWindowsFromShape(fileSize, chunk, offset + chunk);
      assert ws == [Window(offset, chunk)] + rest;
      forall k | 1 <= k < |ws| ensures ws[k].offset == offset + k * chunk {
        assert ws[k] == rest[k - 1];
        assert offset + chunk + (k - 1) * chunk == offset + k * chunk;
      }
      assert offset + chunk + (|rest| - 1) * chunk == offset + (|ws| - 1) * chunk;
      assert offset + chunk + |rest| * chunk == offset + |ws| * chunk;
    }
  }

  /** The primary windows of a file start at 0, chunk, 2 * chunk, ...; all
      but the last span a whole chunk, the last ends at the end of the file,
      and their number is fileSize / chunk rounded up. */
  lemma PrimaryWindowsShape(fileSize: int, chunk: int)
    requires chunk > 0 && fileSize >= 0
    ensures var ws := PrimaryWindows(fileSize, chunk); var n := |ws|;
      && (forall k :: 0 <= k < n ==> ws[k].offset == k * chunk)
      && (forall k :: 0 <= k < n - 1 ==> ws[k].length == chunk)
      && (n > 0 ==> 0 < ws[n - 1].length <= chunk && ws[n - 1].offset + ws[n - 1].length == fileSize)
      && (n == 0 <==> fileSize == 0)
      && (n > 0 ==> (n - 1) * chunk < fileSize <= n * chunk)
  {
    PrimaryWindowsFromShape(fileSize, chunk, 0);
  }

  /** Where the boundary pass starts: one chunk in, stepped back by `m * 20`
      bytes, in wrapping `int` arithmetic (`m` is the raw `-m` value). */
  function BoundaryStart(chunk: int, m: int): int
  {
    Wrap32(chunk - Wrap32(m * 20))
  }

  /** How many bytes each boundary window spans: `m * 40`, in wrapping `int`
      arithmetic. */
  function BoundaryLength(m: int): int
  {
    Wrap32(m * 40)
  }

  /** The boundary windows from `offset` on, while bytes are counted as
      remaining (the count drops by one chunk per window) and the window ends
      inside the file. */
  function BoundaryWindowsFrom(fileSize: int, chunk: int, offset: int, length: int, remaining: int): seq<Window>
    requires chunk > 0
    decreases remaining
  {
    if remaining <= 0 || offset + length > fileSize then []
    else [Window(offset, length)] + BoundaryWindowsFrom(fileSize, chunk, offset + chunk, length, remaining - chunk)
  }

  /** The boundary windows of a file. */
  function BoundaryWindows(fileSize: int, chunk: int, m: int): seq<Window>
    requires chunk > 0
  {
    BoundaryWindowsFrom(fileSize, chunk, BoundaryStart(chunk, m), BoundaryLength(m), fileSize)
  }

  /** With no wrap-around, the j-th remaining boundary window starts `j`
      chunks after `offset` and they stop at the first that would end past
      the end of the file. */
  lemma {:induction false} BoundaryWindowsFromShape(fileSize: int, chunk: int, offset: int, length: int, remaining: int)
    requires chunk > 0 && offset + remaining + length > fileSize
    ensures var ws := BoundaryWindowsFrom(fileSize, chunk, offset, length, remaining); var n := |ws|;
      && (forall j :: 0 <= j < n ==> ws[j] == Window(offset + j * chunk, length))
      && (n > 0 ==> offset + (n - 1) * chunk + length <= fileSize)
      && fileSize < offset + n * chunk + length
    decreases remaining
  {
    var ws := BoundaryWindowsFrom(fileSize, chunk, offset, length, remaining);
    if remaining > 0 && offset + length <= fileSize {
      var rest := BoundaryWindowsFrom(fileSize, chunk, offset + chunk, length, remaining - chunk);
      BoundaryWindowsFromShape(fileSize, chunk, offset + chunk, length, remaining - chunk);
      assert ws == [Window(offset, length)] + rest;
      forall j | 1 <= j < |ws| ensures ws[j] == Window(offset + j * chunk, length) {
        assert ws[j] == rest[j - 1];
        assert offset + chunk + (j - 1) * chunk == offset + j * chunk;
      }
      assert offset + chunk + (|rest| - 1) * chunk == offset + (|ws| - 1) * chunk;
      assert offset + chunk + |rest| * chunk == offset + |ws| * chunk;
    }
  }

  /** For an ordinary `-m` (positive, with `m * 40` within `int`), the k-th
      boundary window (k = 1, 2, ...) starts at `k * chunk - 20 * m` and spans
      `40 * m` bytes, so it is centred on the seam at `k * chunk`; the pass
      stops at the first window that would end past the end of the file. */
  lemma BoundaryWindowsShape(fileSize: int, chunk: int, m: int)
    requires MiB <= chunk <= MaxChunkSizeMb * MiB
    requires 1 <= m && m * 40 <= Int32Max
    ensures var ws := BoundaryWindows(fileSize, chunk, m); var n := |ws|;
      && (forall k :: 1 <= k <= n ==> ws[k - 1] == Window(k * chunk - 20 * m, 40 * m))
      && (n > 0 ==> n * chunk + 20 * m <= fileSize)
      && fileSize < (n + 1) * chunk + 20 * m
  {
    var start := chunk - 20 * m;
    assert BoundaryStart(chunk, m) == start;
    assert BoundaryLength(m) == 40 * m;
    var ws := BoundaryWindows(fileSize, chunk, m);
    BoundaryWindowsFromShape(fileSize, chunk, start, 40 * m, fileSize);
    forall k | 1 <= k <= |ws| ensures ws[k - 1] == Window(k * chunk - 20 * m, 40 * m) {
      assert start + (k - 1) * chunk == k * chunk - 20 * m;
    }
    assert start + (|ws| - 1) * chunk + 40 * m == |ws| * chunk + 20 * m;
    assert start + |ws| * chunk + 40 * m == (|ws| + 1) * chunk + 20 * m;
  }

  /** A run of bytes straddles the seam at `seam` when it starts before the
      seam and ends after it. */
  predicate Straddles(start: int, length: int, seam: int)
  {
    start < seam < start + length
  }

  /** For an ordinary `-m`, a seam `k * chunk` gets a boundary window exactly
      when the window centred on it ends inside the file; that window then
      contains every run of at most `20 * m` bytes straddling the seam. */
  lemma SeamCoverage(fileSize: int, chunk: int, m: int, k: int, start: int, length: int)
    requires MiB <= chunk <= MaxChunkSizeMb * MiB
    requires 1 <= m && m * 40 <= Int32Max
    requires k >= 1
    ensures var ws := BoundaryWindows(fileSize, chunk, m);
      k <= |ws| <==> k * chunk + 20 * m <= fileSize
    ensures var ws := BoundaryWindows(fileSize, chunk, m);
      k <= |ws| && Straddles(start, length, k * chunk) && length <= 20 * m ==>
        ws[k - 1].offset <= start && start + length <= ws[k - 1].offset + ws[k - 1].length
  {
    var ws := BoundaryWindows(fileSize, chunk, m);
    BoundaryWindowsShape(fileSize, chunk, m);
    var n := |ws|;
    if k <= n {
      MulMonotone(k, n, chunk);
    } else {
      MulMonotone(n + 1, k, chunk);
    }
  }

  /** Multiplying by a non-negative number keeps the order. */
  lemma {:induction false} MulMonotone(a: int, b: int, c: int)
    requires a <= b && c >= 0
    ensures a * c <= b * c
  {
    assert b * c - a * c == (b - a) * c;
  }

  /** A seam with no boundary window: in a file of one chunk and `10 * m`
      bytes (`10 * m` at most a chunk), the seam at `chunk` has none, since the window centred on it
      would end `10 * m` bytes past the end of the file; a string straddling
      that seam is then seen by neither pass as a whole. */
  lemma LastSeamUncovered(chunk: int, m: int)
    requires MiB <= chunk <= MaxChunkSizeMb * MiB
    requires 1 <= m && m * 40 <= Int32Max && 10 * m <= chunk
    ensures PrimaryWindows(chunk + 10 * m, chunk) == [Window(0, chunk), Window(chunk, 10 * m)]
    ensures BoundaryWindows(chunk + 10 * m, chunk, m) == []
  {
    var fileSize := chunk + 10 * m;
    assert PrimaryWindowsFrom(fileSize, chunk, fileSize) == [];
    assert PrimaryWindowsFrom(fileSize, chunk, chunk) == [Window(chunk, 10 * m)];
    assert BoundaryStart(chunk, m) == chunk - 20 * m && BoundaryLength(m) == 40 * m;
  }

  /** With a negative `-m` the boundary windows have a negative length. */
  lemma NegativeMGivesNegativeLength(m: int)
    requires -0x0333_3333 <= m < 0
    ensures BoundaryLength(m) == 40 * m < 0
  {
  }
}
