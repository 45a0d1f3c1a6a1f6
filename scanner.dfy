/** The scan of one file in `DoWork` (bstrings/Program.cs): the primary pass
    over consecutive chunks, the boundary pass over the seams between them,
    and the hit set they fill. The file is read through a stream whose
    cursor the passes move; only the primary pass reads from where its
    windows start, because it reads the file front to back. */
module Scanner {
  import opened Wrappers
  import opened Bytes
  import opened Carving
  import opened Config
  import opened Planner
  import opened Collector

  /** What `length` bytes read at `pos` deliver into a fresh (zeroed)
      buffer: the file's bytes from `pos` on, as many as there are, and the
      zeros the buffer was created with after them. A read that fits in the
      file is exactly a slice of it; one at or past its end is all zeros. */
  function ReadAt(data: seq<byte>, pos: int, length: nat): (r: seq<byte>)
    ensures |r| == length
    ensures 0 <= pos && pos + length <= |data| ==> r == data[pos..pos + length]
    ensures 0 <= pos <= |data| < pos + length ==> r == data[pos..] + Zeros(pos + length - |data|)
    ensures pos >= |data| ==> r == Zeros(length)
  {
    var r := seq(length, i requires 0 <= i < length => if 0 <= pos + i < |data| then data[pos + i] else 0);
    assert 0 <= pos <= |data| < pos + length ==> r == data[pos..] + Zeros(pos + length - |data|) by {
      if 0 <= pos <= |data| < pos + length {
        var t := data[pos..] + Zeros(pos + length - |data|);
        assert forall i :: 0 <= i < length ==> r[i] == t[i];
      }
    }
    r
  }

  /** The file as the stream the scan reads: its bytes and the cursor. */
  class ByteSource {
    const data: seq<byte>
    var pos: int

    ghost predicate Valid()
      reads this
    {
      0 <= pos
    }

    constructor (data: seq<byte>)
      ensures this.data == data && pos == 0 && Valid()
    {
      this.data := data;
      pos := 0;
    }

    /** `Stream.Read(buffer, 0, count)`: copies up to `count` bytes from the
        cursor into the front of `buffer`, as many as remain, and moves the
        cursor past them. */
    method Read(buffer: array<byte>, count: nat) returns (n: nat)
      requires Valid() && count <= buffer.Length
      modifies this, buffer
      ensures Valid()
      ensures n == if old(pos) >= |data| then 0 else if count <= |data| - old(pos) then count else |data| - old(pos)
      ensures pos == old(pos) + n
      ensures forall i :: 0 <= i < n ==> buffer[i] == data[old(pos) + i]
      ensures forall i :: n <= i < buffer.Length ==> buffer[i] == old(buffer[i])
    {
      n := if pos >= |data| then 0 else if count <= |data| - pos then count else |data| - pos;
      for i := 0 to n
        invariant pos == old(pos)
        invariant forall j :: 0 <= j < i ==> buffer[j] == data[pos + j]
        invariant forall j :: i <= j < buffer.Length ==> buffer[j] == old(buffer[j])
      {
        buffer[i] := data[pos + i];
      }
      pos := pos + n;
    }

    /** Setting `Stream.Position`: a negative position throws and leaves the
        cursor where it was. */
    method Seek(offset: int) returns (ok: bool)
      requires Valid()
      modifies this
      ensures Valid()
      ensures ok <==> offset >= 0
      ensures pos == if ok then offset else old(pos)
    {
      if offset < 0 {
        return false;
      }
      pos := offset;
      return true;
    }
  }

  /** Reading `count` bytes at the cursor into a fresh buffer of `count`
      bytes leaves in it what `ReadAt` says. */
  lemma FreshBufferRead(data: seq<byte>, pos: int, count: nat, before: seq<byte>, after: seq<byte>, n: nat)
    requires 0 <= pos && |before| == |after| == count && before == Zeros(count)
    requires n == if pos >= |data| then 0 else if count <= |data| - pos then count else |data| - pos
    requires forall i :: 0 <= i < n ==> after[i] == data[pos + i]
    requires forall i :: n <= i < count ==> after[i] == before[i]
    ensures after == ReadAt(data, pos, count)
  {
  }

  /** The hits one carving step adds, in order, and whether it completed:
      a carving call that fails (its regex is rejected, or its code page is
      unknown) throws, and the exception ends the scan of the file. */
  datatype Carved = Carved(hits: seq<string>, ok: bool)

  /** Carving one chunk: the UTF-16 hits, when `-u` is on, then the
      code-page hits, when `-a` is on. */
  function CarveChunk(bytes: seq<byte>, offset: int, cfg: Settings, eng: Engines): Carved
  {
    var uni := if cfg.unicode then UnicodeHits(bytes, cfg.minLength, cfg.maxLength, offset, cfg.withOffsets, cfg.ur, eng)
               else Some([]);
    if uni.None? then Carved([], false)
    else
      var asc := if cfg.ascii then AsciiHits(bytes, cfg.minLength, cfg.maxLength, offset, cfg.withOffsets, cfg.ar, eng)
                 else Some([]);
      if asc.None? then Carved(uni.value, false) else Carved(uni.value + asc.value, true)
  }

  /** The bytes a window delivers: read where the window starts when the
      stream is positioned there, or at the end of the file when it is not
      (after the primary pass the cursor rests there). */
  function WindowBytes(w: Window, data: seq<byte>, seek: bool): seq<byte>
    requires w.length >= 0
  {
    ReadAt(data, if seek then w.offset else |data|, w.length)
  }

  /** Carving one window: allocating its buffer throws when its length is
      negative, positioning the stream throws when it is positioned and the
      offset is negative; otherwise the window's bytes are carved. */
  function CarveAt(w: Window, data: seq<byte>, seek: bool, cfg: Settings, eng: Engines): Carved
  {
    if w.length < 0 || (seek && w.offset < 0) then Carved([], false)
    else CarveChunk(WindowBytes(w, data, seek), w.offset, cfg, eng)
  }

  /** One carving step followed by another: the second runs only when the
      first completed. */
  function Then(a: Carved, b: Carved): (r: Carved)
    ensures r.ok <==> a.ok && b.ok
    ensures a.hits <= r.hits
  {
    if !a.ok then a else Carved(a.hits + b.hits, b.ok)
  }

  /** The outcome of carving each window on its own. */
  function Outcomes(ws: seq<Window>, data: seq<byte>, seek: bool, cfg: Settings, eng: Engines): (r: seq<Carved>)
    ensures |r| == |ws|
  {
    if ws == [] then [] else [CarveAt(ws[0], data, seek, cfg, eng)] + Outcomes(ws[1..], data, seek, cfg, eng)
  }

  /** `outs` holds the outcome of carving each window of `ws` on its own. */
  ghost predicate OutcomesOf(outs: seq<Carved>, ws: seq<Window>, data: seq<byte>, seek: bool, cfg: Settings, eng: Engines)
  {
    && |outs| == |ws|
    && forall i {:trigger CarveAt(ws[i], data, seek, cfg, eng)} ::
         0 <= i < |ws| ==> outs[i] == CarveAt(ws[i], data, seek, cfg, eng)
  }

  /** The outcomes are those of the windows, one by one. */
  lemma {:induction false} OutcomesSpec(ws: seq<Window>, data: seq<byte>, seek: bool, cfg: Settings, eng: Engines)
    ensures OutcomesOf(Outcomes(ws, data, seek, cfg, eng), ws, data, seek, cfg, eng)
  {
    if ws != [] {
      var r := Outcomes(ws, data, seek, cfg, eng);
      OutcomesSpec(ws[1..], data, seek, cfg, eng);
      forall i | 0 <= i < |ws| ensures r[i] == CarveAt(ws[i], data, seek, cfg, eng) {
        if i > 0 {
          assert ws[1..][i - 1] == ws[i];
          assert r[i] == Outcomes(ws[1..], data, seek, cfg, eng)[i - 1];
        }
      }
    }
  }

  /** Carving steps taken in turn, up to the first that throws. */
  function Sequence(cs: seq<Carved>): Carved
  {
    if cs == [] then Carved([], true) else Then(cs[0], Sequence(cs[1..]))
  }

  /** Carving a list of windows in turn, up to the first that throws. */
  function CarveAll(ws: seq<Window>, data: seq<byte>, seek: bool, cfg: Settings, eng: Engines): Carved
  {
    Sequence(Outcomes(ws, data, seek, cfg, eng))
  }

  /** The steps from the k-th on are the k-th, then those after it. */
  lemma SequenceFrom(cs: seq<Carved>, k: int)
    requires 0 <= k < |cs|
    ensures Sequence(cs[k..]) == Then(cs[k], Sequence(cs[k + 1..]))
  {
    assert cs[k..][0] == cs[k] && cs[k..][1..] == cs[k + 1..];
  }

  /** Steps taken in turn complete exactly when every one of them does; the
      hits are those of every step up to the first that fails, in order. */
  lemma {:induction false} SequenceSpec(cs: seq<Carved>)
    ensures Sequence(cs).ok <==> forall i :: 0 <= i < |cs| ==> cs[i].ok
    ensures (forall i :: 0 <= i < |cs| ==> cs[i].ok) ==> Sequence(cs).hits == Concat(cs)
    ensures forall k :: 0 <= k < |cs| && !cs[k].ok && (forall i :: 0 <= i < k ==> cs[i].ok) ==>
      Sequence(cs).hits == Concat(cs[..k + 1])
  {
    if cs != [] {
      SequenceSpec(cs[1..]);
      ConcatCons(cs);
      forall k | 0 <= k < |cs| && !cs[k].ok && (forall i :: 0 <= i < k ==> cs[i].ok)
        ensures Sequence(cs).hits == Concat(cs[..k + 1])
      {
        if k == 0 {
          ConcatCons(cs[..1]);
          assert cs[..1][1..] == [];
        } else {
          assert cs[1..][k - 1] == cs[k];
          assert forall i :: 0 <= i < k - 1 ==> cs[1..][i] == cs[i + 1];
          ConcatCons(cs[..k + 1]);
          assert cs[..k + 1][1..] == cs[1..][..k];
        }
      }
    }
  }

  /** All the hits of a list of steps, in order. */
  function Concat(cs: seq<Carved>): seq<string>
  {
    if cs == [] then [] else cs[0].hits + Concat(cs[1..])
  }

  /** Unfolding `Concat` once. */
  lemma ConcatCons(cs: seq<Carved>)
    requires cs != []
    ensures Concat(cs) == cs[0].hits + Concat(cs[1..])
  {
  }

  /** Carving a first window, then the rest. */
  lemma CarveAllCons(w: Window, tail: seq<Window>, data: seq<byte>, seek: bool, cfg: Settings, eng: Engines)
    ensures CarveAll([w] + tail, data, seek, cfg, eng)
         == Then(CarveAt(w, data, seek, cfg, eng), CarveAll(tail, data, seek, cfg, eng))
  {
    assert ([w] + tail)[0] == w && ([w] + tail)[1..] == tail;
  }

  /** Partway through a pass: the hits so far are `done`, and the pass's
      outcome `total` is what remains, windows `k` on, after them. */
  ghost predicate Pending(total: Carved, done: seq<string>, outs: seq<Carved>, k: int)
    requires 0 <= k <= |outs|
  {
    total.hits == done + Sequence(outs[k..]).hits && total.ok == Sequence(outs[k..]).ok
  }

  /** Carving the steps from the k-th on, after steps whose hits were
      `done`: when the k-th fails the whole carving stops there, with `done`
      and the k-th step's hits; otherwise `done` grows by the k-th step's hits
      and the carving goes on with the steps after it. */
  lemma SequenceStep(cs: seq<Carved>, k: int, total: Carved, done: seq<string>)
    requires 0 <= k < |cs|
    requires total.hits == done + Sequence(cs[k..]).hits && total.ok == Sequence(cs[k..]).ok
    ensures !cs[k].ok ==> total == Carved(done + cs[k].hits, false)
    ensures cs[k].ok ==>
      total.hits == (done + cs[k].hits) + Sequence(cs[k + 1..]).hits && total.ok == Sequence(cs[k + 1..]).ok
  {
    SequenceFrom(cs, k);
  }

  /** The boundary windows that remain, as the k-th suffix of the whole list:
      while bytes remain and the window at `offset` ends inside the file, it
      is the k-th window and the (k+1)-th suffix is what remains after it. */
  lemma BoundaryWindowsFromStep(ws: seq<Window>, k: int, fileSize: int, chunk: int, offset: int, length: int, remaining: int)
    requires chunk > 0 && 0 <= k <= |ws|
    requires ws[k..] == BoundaryWindowsFrom(fileSize, chunk, offset, length, remaining)
    requires remaining > 0 && offset + length <= fileSize
    ensures k < |ws| && ws[k] == Window(offset, length)
    ensures ws[k + 1..] == BoundaryWindowsFrom(fileSize, chunk, offset + chunk, length, remaining - chunk)
  {
    assert ws[k..][0] == ws[k] && ws[k..][1..] == ws[k + 1..];
  }

  /** The primary windows that remain, as the k-th suffix of the whole list:
      while bytes remain the window at `offset`, clamped to them, is the k-th
      window, and the (k+1)-th suffix is what remains after it. */
  lemma PrimaryWindowsFromStep(ws: seq<Window>, k: int, fileSize: int, chunk: int, offset: int, length: int)
    requires chunk > 0 && 0 <= k <= |ws|
    requires ws[k..] == PrimaryWindowsFrom(fileSize, chunk, offset)
    requires offset < fileSize && length == (if fileSize - offset <= chunk then fileSize - offset else chunk)
    ensures k < |ws| && ws[k] == Window(offset, length)
    ensures ws[k + 1..] == PrimaryWindowsFrom(fileSize, chunk, offset + length)
  {
    assert ws[k..][0] == ws[k] && ws[k..][1..] == ws[k + 1..];
  }

  /** The boundary pass as written reads at the end of the file, so what it
      carves does not depend on the file's content at all: two files of the
      same size give the same boundary hits. */
  lemma {:induction false} UnseekedCarvingIgnoresContent(ws: seq<Window>, d1: seq<byte>, d2: seq<byte>, cfg: Settings, eng: Engines)
    requires |d1| == |d2|
    ensures Outcomes(ws, d1, false, cfg, eng) == Outcomes(ws, d2, false, cfg, eng)
    ensures CarveAll(ws, d1, false, cfg, eng) == CarveAll(ws, d2, false, cfg, eng)
  {
    if ws != [] {
      UnseekedCarvingIgnoresContent(ws[1..], d1, d2, cfg, eng);
    }
  }

  /** As written, the boundary pass carves a file exactly as it carves a file
      of zeros of the same size. */
  lemma UnseekedBoundaryPassSeesZeros(data: seq<byte>, cfg: Settings, eng: Engines)
    requires cfg.Valid()
    ensures var ws := BoundaryWindows(|data|, cfg.ChunkSize(), cfg.m);
      CarveAll(ws, data, false, cfg, eng) == CarveAll(ws, Zeros(|data|), false, cfg, eng)
  {
    UnseekedCarvingIgnoresContent(BoundaryWindows(|data|, cfg.ChunkSize(), cfg.m), data, Zeros(|data|), cfg, eng);
  }

  /** As written, a run of bytes straddling a seam that has a boundary window
      never reaches the buffer of that window when it holds a non-zero byte:
      the buffer is all zeros. */
  lemma UnseekedWindowMissesStraddlingRun(data: seq<byte>, chunk: int, m: int, k: int, start: int, length: int, j: int)
    requires MiB <= chunk <= MaxChunkSizeMb * MiB
    requires 1 <= m && m * 40 <= Int32Max && 20 * m <= k * chunk
    requires k >= 1 && k * chunk + 20 * m <= |data|
    requires Straddles(start, length, k * chunk) && length <= 20 * m
    requires start <= j < start + length && data[j] != 0
    ensures var ws := BoundaryWindows(|data|, chunk, m);
      && k <= |ws|
      && ws[k - 1].offset <= start && start + length <= ws[k - 1].offset + ws[k - 1].length
      && WindowBytes(ws[k - 1], data, false) == Zeros(40 * m)
      && WindowBytes(ws[k - 1], data, false)[j - ws[k - 1].offset] != data[j]
  {
    var ws := BoundaryWindows(|data|, chunk, m);
    SeamCoverage(|data|, chunk, m, k, start, length);
    BoundaryWindowsShape(|data|, chunk, m);
  }

  /** Corrected: positioned at each window, the boundary pass carves exactly
      the window's bytes of the file, and a run of at most `20 * m` bytes
      straddling a seam that has a boundary window lies whole in them. */
  lemma SeekedWindowHoldsStraddlingRun(data: seq<byte>, chunk: int, m: int, k: int, start: int, length: int)
    requires MiB <= chunk <= MaxChunkSizeMb * MiB
    requires 1 <= m && m * 40 <= Int32Max && 20 * m <= k * chunk
    requires k >= 1 && k * chunk + 20 * m <= |data|
    requires Straddles(start, length, k * chunk) && length <= 20 * m
    ensures var ws := BoundaryWindows(|data|, chunk, m);
      && k <= |ws|
      && var w := ws[k - 1];
      && 0 <= w.offset <= start && start + length <= w.offset + w.length <= |data|
      && WindowBytes(w, data, true) == data[w.offset..w.offset + w.length]
      && WindowBytes(w, data, true)[start - w.offset..start - w.offset + length] == data[start..start + length]
  {
    var ws := BoundaryWindows(|data|, chunk, m);
    SeamCoverage(|data|, chunk, m, k, start, length);
    BoundaryWindowsShape(|data|, chunk, m);
    var w := ws[k - 1];
  }

  /** The hits of one file: the primary hits, then, unless the primary pass
      threw, the boundary hits with their two-space prefix. With `seek` false
      the boundary windows are read where the primary pass left the stream,
      as the program does; with `seek` each is read where it starts. */
  function ScanHits(data: seq<byte>, cfg: Settings, eng: Engines, seek: bool): seq<string>
    requires cfg.Valid()
  {
    var primary := CarveAll(PrimaryWindows(|data|, cfg.ChunkSize()), data, true, cfg, eng);
    if !primary.ok then primary.hits
    else primary.hits + Prefixed("  ", CarveAll(BoundaryWindows(|data|, cfg.ChunkSize(), cfg.m), data, seek, cfg, eng).hits)
  }

  /** Whether the boundary pass of a file found anything. */
  predicate FoundAcrossBoundary(data: seq<byte>, cfg: Settings, eng: Engines, seek: bool)
    requires cfg.Valid()
  {
    && CarveAll(PrimaryWindows(|data|, cfg.ChunkSize()), data, true, cfg, eng).ok
    && |CarveAll(BoundaryWindows(|data|, cfg.ChunkSize(), cfg.m), data, seek, cfg, eng).hits| > 0
  }

  /** As written, the boundary part of a file's hits is what the boundary
      pass carves from a file of zeros of the same size: whatever straddles
      a seam, the boundary pass adds nothing the file's bytes decide. */
  lemma ScanHitsAsWritten(data: seq<byte>, cfg: Settings, eng: Engines)
    requires cfg.Valid()
    ensures var primary := CarveAll(PrimaryWindows(|data|, cfg.ChunkSize()), data, true, cfg, eng);
      var zeros := CarveAll(BoundaryWindows(|data|, cfg.ChunkSize(), cfg.m), Zeros(|data|), false, cfg, eng);
      && ScanHits(data, cfg, eng, false) == (if primary.ok then primary.hits + Prefixed("  ", zeros.hits) else primary.hits)
      && (FoundAcrossBoundary(data, cfg, eng, false) <==> primary.ok && |zeros.hits| > 0)
  {
    UnseekedBoundaryPassSeesZeros(data, cfg, eng);
  }

  /** Allocating the buffer of a boundary window, positioning the stream at
      the window when `seek` holds, and reading the window into the buffer.
      Returns false when allocating or positioning throws. */
  method ReadWindow(src: ByteSource, w: Window, seek: bool) returns (buffer: array<byte>, ok: bool)
    requires src.Valid() && (!seek ==> src.pos == |src.data|)
    modifies src
    ensures src.Valid() && (!seek ==> src.pos == |src.data|)
    ensures ok <==> !(w.length < 0 || (seek && w.offset < 0))
    ensures ok ==> fresh(buffer) && w.length >= 0 && buffer[..] == WindowBytes(w, src.data, seek)
  {
    if w.length < 0 {
      // allocating an array of negative size throws
      buffer := new byte[0];
      return buffer, false;
    }
    buffer := new byte[w.length](_ => 0);
    if seek {
      var positioned := src.Seek(w.offset);
      if !positioned {
        return buffer, false;
      }
    }
    ghost var before := buffer[..];
    ghost var at := src.pos;
    var n := src.Read(buffer, w.length);
    FreshBufferRead(src.data, at, w.length, before, buffer[..], n);
    ok := true;
  }

  /** The state `DoWork` keeps while scanning: the hit set of the current
      file, and whether any boundary window of any file so far yielded a hit
      (it is declared outside the loop over files and never reset). */
  class Scan {
    var hits: seq<string>
    var withBoundaryHits: bool

    ghost predicate Valid()
      reads this
    {
      Distinct(hits)
    }

    constructor ()
      ensures Valid() && hits == [] && !withBoundaryHits
    {
      hits := [];
      withBoundaryHits := false;
    }

    /** The `foreach` that adds each hit of a carving call to the set, with
        `prefix` in front. */
    method AddAll(hs: seq<string>, prefix: string)
      requires Valid()
      modifies this
      ensures Valid()
      ensures hits == InsertAll(old(hits), Prefixed(prefix, hs))
      ensures withBoundaryHits == old(withBoundaryHits)
    {
      for i := 0 to |hs|
        invariant hits == InsertAll(old(hits), Prefixed(prefix, hs[..i])) && Valid()
        invariant withBoundaryHits == old(withBoundaryHits)
      {
        assert hs[..i + 1] == hs[..i] + [hs[i]];
        PrefixedAppend(prefix, hs[..i], [hs[i]]);
        assert Prefixed(prefix, [hs[i]]) == [prefix + hs[i]];
        InsertAllAppend(old(hits), Prefixed(prefix, hs[..i]), [prefix + hs[i]]);
        assert InsertAll(hits, [prefix + hs[i]]) == Insert(hits, prefix + hs[i]);
        InsertSpec(hits, prefix + hs[i]);
        hits := Insert(hits, prefix + hs[i]);
      }
      assert hs[..|hs|] == hs;
    }

    /** Carving one chunk and adding its hits: with a two-space prefix, and
        raising `withBoundaryHits` when a call yields a hit, in the boundary
        pass. Returns false when a carving call throws. */
    method CarveWindow(chunk: array<byte>, offset: int, boundary: bool, cfg: Settings, eng: Engines)
      returns (ok: bool)
      requires Valid()
      modifies this
      ensures Valid()
      ensures var c := CarveChunk(chunk[..], offset, cfg, eng);
        && hits == InsertAll(old(hits), Prefixed(if boundary then "  " else "", c.hits))
        && ok == c.ok
        && withBoundaryHits == (old(withBoundaryHits) || (boundary && |c.hits| > 0))
    {
      var prefix := if boundary then "  " else "";
      var uni: seq<string> := [];
      if cfg.unicode {
        var uh := GetUnicodeHits(chunk, cfg.minLength, cfg.maxLength, offset, cfg.withOffsets, cfg.ur, eng);
        if uh.None? {
          return false;
        }
        uni := uh.value;
        AddAll(uni, prefix);
        if boundary && withBoundaryHits == false && |uni| > 0 {
          withBoundaryHits := true;
        }
      }
      if cfg.ascii {
        var ah := GetAsciiHits(chunk, cfg.minLength, cfg.maxLength, offset, cfg.withOffsets, cfg.ar, eng);
        if ah.None? {
          return false;
        }
        InsertAllAppend(old(hits), Prefixed(prefix, uni), Prefixed(prefix, ah.value));
        PrefixedAppend(prefix, uni, ah.value);
        AddAll(ah.value, prefix);
        if boundary && withBoundaryHits == false && |ah.value| > 0 {
          withBoundaryHits := true;
        }
        return true;
      }
      assert uni + [] == uni;
      return true;
    }

    /** One step of the primary pass: allocating a buffer for the window,
        reading it from the cursor, which stands at the window, and carving
        it. Returns false when a carving call threw. */
    method CarvePrimaryWindow(src: ByteSource, w: Window, cfg: Settings, eng: Engines,
                              ghost ws: seq<Window>, ghost outs: seq<Carved>, ghost k: int)
      returns (ok: bool)
      requires src.Valid()
      requires OutcomesOf(outs, ws, src.data, true, cfg, eng) && 0 <= k < |ws| && ws[k] == w
      requires 0 <= w.offset == src.pos && 0 <= w.length && w.offset + w.length <= |src.data|
      requires Valid()
      modifies this, src
      ensures Valid()
      ensures src.Valid() && src.pos == w.offset + w.length
      ensures hits == InsertAll(old(hits), outs[k].hits)
      ensures ok == outs[k].ok
      ensures withBoundaryHits == old(withBoundaryHits)
    {
      assert outs[k] == CarveAt(ws[k], src.data, true, cfg, eng);
      var buffer := new byte[w.length](_ => 0);
      ghost var before := buffer[..];
      var read := src.Read(buffer, w.length);
      FreshBufferRead(src.data, w.offset, w.length, before, buffer[..], read);
      ok := CarveWindow(buffer, w.offset, false, cfg, eng);
      PrefixedEmpty(CarveChunk(buffer[..], w.offset, cfg, eng).hits);
    }

    /** The primary pass: chunks of `chunkSizeBytes` read front to back, the
        last clamped to what remains, each carved at its offset. Returns true
        when a carving call threw. */
    method PrimaryPass(src: ByteSource, cfg: Settings, eng: Engines) returns (aborted: bool)
      requires src.Valid() && cfg.Valid() && src.pos == 0
      requires Valid()
      modifies this, src
      ensures Valid()
      ensures src.Valid()
      ensures var c := CarveAll(PrimaryWindows(|src.data|, cfg.ChunkSize()), src.data, true, cfg, eng);
        hits == InsertAll(old(hits), c.hits) && aborted == !c.ok
      ensures withBoundaryHits == old(withBoundaryHits)
      ensures !aborted ==> src.pos == |src.data|
    {
      var chunkSizeBytes := cfg.chunkSizeMb * 1024 * 1024;
      assert chunkSizeBytes == cfg.ChunkSize();
      ghost var ws := PrimaryWindows(|src.data|, chunkSizeBytes);
      OutcomesSpec(ws, src.data, true, cfg, eng);
      aborted := CarvePrimaryWindows(src, chunkSizeBytes, cfg, eng, ws, Outcomes(ws, src.data, true, cfg, eng));
    }

    /** One iteration of the primary loop: window `k`, which starts at the
        cursor, carved, and the pass's hits and outcome advanced past it. */
    method PrimaryStep(src: ByteSource, ghost chunk: int, offset: int, length: int, cfg: Settings, eng: Engines,
                       ghost ws: seq<Window>, ghost outs: seq<Carved>, ghost k: int, ghost total: Carved,
                       ghost start: seq<string>, ghost done: seq<string>)
      returns (ok: bool)
      requires src.Valid() && src.pos == offset && chunk > 0
      requires OutcomesOf(outs, ws, src.data, true, cfg, eng)
      requires 0 <= k <= |ws| && ws[k..] == PrimaryWindowsFrom(|src.data|, chunk, offset)
      requires 0 <= offset < |src.data| && length == (if |src.data| - offset <= chunk then |src.data| - offset else chunk)
      requires Pending(total, done, outs, k)
      requires hits == InsertAll(start, done)
      requires Valid()
      modifies this, src
      ensures Valid()
      ensures src.Valid() && src.pos == offset + length && k < |ws|
      ensures withBoundaryHits == old(withBoundaryHits)
      ensures hits == InsertAll(start, done + outs[k].hits)
      ensures ok ==> ws[k + 1..] == PrimaryWindowsFrom(|src.data|, chunk, offset + length)
      ensures ok ==> Pending(total, done + outs[k].hits, outs, k + 1)
      ensures !ok ==> total == Carved(done + outs[k].hits, false)
    {
      PrimaryWindowsFromStep(ws, k, |src.data|, chunk, offset, length);
      SequenceStep(outs, k, total, done);
      ok := CarvePrimaryWindow(src, Window(offset, length), cfg, eng, ws, outs, k);
      InsertAllAppend(start, done, outs[k].hits);
    }

    /** The loop of the primary pass. */
    method CarvePrimaryWindows(src: ByteSource, chunkSizeBytes: int, cfg: Settings, eng: Engines,
                               ghost ws: seq<Window>, ghost outs: seq<Carved>)
      returns (aborted: bool)
      requires src.Valid() && src.pos == 0 && chunkSizeBytes > 0
      requires ws == PrimaryWindowsFrom(|src.data|, chunkSizeBytes, 0)
      requires OutcomesOf(outs, ws, src.data, true, cfg, eng)
      requires Valid()
      modifies this, src
      ensures Valid()
      ensures src.Valid()
      ensures hits == InsertAll(old(hits), Sequence(outs).hits) && aborted == !Sequence(outs).ok
      ensures withBoundaryHits == old(withBoundaryHits)
      ensures !aborted ==> src.pos == |src.data|
    {
      var fileSizeBytes := |src.data|;
      var chunkSizeBytes := chunkSizeBytes;
      ghost var chunk := chunkSizeBytes;
      var bytesRemaining := fileSizeBytes;
      var offset := 0;
      var chunkIndex := 1;
      ghost var total := Sequence(outs);
      ghost var k := 0;
      ghost var done: seq<string> := [];
      while bytesRemaining > 0
        invariant src.Valid()
        invariant 0 <= offset <= fileSizeBytes && offset + bytesRemaining == fileSizeBytes
        invariant src.pos == offset
        invariant bytesRemaining > 0 ==> chunkSizeBytes == chunk
        invariant 0 <= k <= |ws| && ws[k..] == PrimaryWindowsFrom(fileSizeBytes, chunk, offset)
        invariant Pending(total, done, outs, k)
        invariant hits == InsertAll(old(hits), done) && Valid()
        invariant withBoundaryHits == old(withBoundaryHits)
        decreases bytesRemaining
      {
        if bytesRemaining <= chunkSizeBytes {
          chunkSizeBytes := bytesRemaining;
        }
        var ok := PrimaryStep(src, chunk, offset, chunkSizeBytes, cfg, eng, ws, outs, k, total, old(hits), done);
        if !ok {
          return true;
        }
        done := done + outs[k].hits;
        k := k + 1;
        offset := offset + chunkSizeBytes;
        bytesRemaining := bytesRemaining - chunkSizeBytes;
        chunkIndex := chunkIndex + 1;
      }
      assert outs[k..] == [];
      assert total.hits == done && total.ok;
      return false;
    }

    /** One step of the boundary pass: allocating a buffer for the window,
        positioning the stream at it when `seek` holds, reading it, and
        carving it with a two-space prefix. Returns false when a step threw. */
    method CarveBoundaryWindow(src: ByteSource, w: Window, seek: bool, cfg: Settings, eng: Engines,
                               ghost ws: seq<Window>, ghost outs: seq<Carved>, ghost k: int)
      returns (ok: bool)
      requires src.Valid() && (!seek ==> src.pos == |src.data|)
      requires OutcomesOf(outs, ws, src.data, seek, cfg, eng) && 0 <= k < |ws| && ws[k] == w
      requires Valid()
      modifies this, src
      ensures Valid()
      ensures src.Valid() && (!seek ==> src.pos == |src.data|)
      ensures hits == InsertAll(old(hits), Prefixed("  ", outs[k].hits))
      ensures ok == outs[k].ok
      ensures withBoundaryHits == (old(withBoundaryHits) || |outs[k].hits| > 0)
    {
      assert outs[k] == CarveAt(ws[k], src.data, seek, cfg, eng);
      var buffer, read := ReadWindow(src, w, seek);
      if !read {
        assert Prefixed("  ", []) == [];
        return false;
      }
      ok := CarveWindow(buffer, w.offset, true, cfg, eng);
    }

    /** The boundary pass: windows of `m * 40` bytes from `chunkSizeBytes -
        m * 20` on, one chunk apart, until one would end past the end of the
        file, each carved with a two-space prefix, both sizes computed in
        wrapping `int` arithmetic. As written (`seek` false) the stream is not
        positioned at the windows, so each buffer receives what the cursor
        delivers where the primary pass left it, at the end of the file:
        nothing. With `seek` the stream is positioned at each window first.
        Returns true when a step threw. */
    method BoundaryPass(src: ByteSource, cfg: Settings, eng: Engines, seek: bool) returns (aborted: bool)
      requires src.Valid() && cfg.Valid() && (!seek ==> src.pos == |src.data|)
      requires Valid()
      modifies this, src
      ensures Valid()
      ensures src.Valid()
      ensures var c := CarveAll(BoundaryWindows(|src.data|, cfg.ChunkSize(), cfg.m), src.data, seek, cfg, eng);
        && hits == InsertAll(old(hits), Prefixed("  ", c.hits))
        && aborted == !c.ok
        && withBoundaryHits == (old(withBoundaryHits) || |c.hits| > 0)
    {
      var chunkSizeBytes := cfg.chunkSizeMb * 1024 * 1024;
      var offset := Wrap32(chunkSizeBytes - Wrap32(cfg.m * 10 * 2));
      var boundaryChunkSize := Wrap32(cfg.m * 10 * 2 * 2);
      assert chunkSizeBytes == cfg.ChunkSize();
      assert offset == BoundaryStart(chunkSizeBytes, cfg.m) && boundaryChunkSize == BoundaryLength(cfg.m);
      ghost var ws := BoundaryWindowsFrom(|src.data|, chunkSizeBytes, offset, boundaryChunkSize, |src.data|);
      OutcomesSpec(ws, src.data, seek, cfg, eng);
      aborted := CarveBoundaryWindows(src, chunkSizeBytes, offset, boundaryChunkSize, seek, cfg, eng,
                                      ws, Outcomes(ws, src.data, seek, cfg, eng));
    }

    /** One iteration of the boundary loop: window `k` carved with a
        two-space prefix, and the pass's hits, flag and outcome advanced past
        it. */
    method BoundaryStep(src: ByteSource, chunk: int, offset: int, length: int, remaining: int, seek: bool,
                        cfg: Settings, eng: Engines, ghost ws: seq<Window>, ghost outs: seq<Carved>, ghost k: int,
                        ghost total: Carved, ghost start: seq<string>, ghost flag: bool, ghost done: seq<string>)
      returns (ok: bool)
      requires src.Valid() && (!seek ==> src.pos == |src.data|) && chunk > 0
      requires OutcomesOf(outs, ws, src.data, seek, cfg, eng)
      requires 0 <= k <= |ws| && ws[k..] == BoundaryWindowsFrom(|src.data|, chunk, offset, length, remaining)
      requires remaining > 0 && offset + length <= |src.data|
      requires Pending(total, done, outs, k)
      requires hits == InsertAll(start, Prefixed("  ", done))
      requires withBoundaryHits == (flag || |done| > 0)
      requires Valid()
      modifies this, src
      ensures Valid()
      ensures src.Valid() && (!seek ==> src.pos == |src.data|) && k < |ws|
      ensures hits == InsertAll(start, Prefixed("  ", done + outs[k].hits))
      ensures withBoundaryHits == (flag || |done + outs[k].hits| > 0)
      ensures ok ==> ws[k + 1..] == BoundaryWindowsFrom(|src.data|, chunk, offset + chunk, length, remaining - chunk)
      ensures ok ==> Pending(total, done + outs[k].hits, outs, k + 1)
      ensures !ok ==> total == Carved(done + outs[k].hits, false)
    {
      BoundaryWindowsFromStep(ws, k, |src.data|, chunk, offset, length, remaining);
      SequenceStep(outs, k, total, done);
      ok := CarveBoundaryWindow(src, Window(offset, length), seek, cfg, eng, ws, outs, k);
      InsertAllPrefixedAppend(start, "  ", done, outs[k].hits);
    }

    /** The loop of the boundary pass over the windows of `boundaryChunkSize`
        bytes from `start` on: while bytes are counted as remaining (one
        chunk fewer per window) and the window ends inside the file. */
    method CarveBoundaryWindows(src: ByteSource, chunkSizeBytes: int, start: int, boundaryChunkSize: int,
                                seek: bool, cfg: Settings, eng: Engines,
                                ghost ws: seq<Window>, ghost outs: seq<Carved>)
      returns (aborted: bool)
      requires src.Valid() && chunkSizeBytes > 0 && (!seek ==> src.pos == |src.data|)
      requires ws == BoundaryWindowsFrom(|src.data|, chunkSizeBytes, start, boundaryChunkSize, |src.data|)
      requires OutcomesOf(outs, ws, src.data, seek, cfg, eng)
      requires Valid()
      modifies this, src
      ensures Valid()
      ensures src.Valid()
      ensures hits == InsertAll(old(hits), Prefixed("  ", Sequence(outs).hits))
      ensures aborted == !Sequence(outs).ok
      ensures withBoundaryHits == (old(withBoundaryHits) || |Sequence(outs).hits| > 0)
    {
      var fileSizeBytes := |src.data|;
      var bytesRemaining := fileSizeBytes;
      var offset := start;
      var chunkIndex := 0;
      ghost var total := Sequence(outs);
      ghost var k := 0;
      ghost var done: seq<string> := [];
      while bytesRemaining > 0
        invariant src.Valid() && (!seek ==> src.pos == |src.data|)
        invariant 0 <= k <= |ws|
        invariant ws[k..] == BoundaryWindowsFrom(fileSizeBytes, chunkSizeBytes, offset, boundaryChunkSize, bytesRemaining)
        invariant Pending(total, done, outs, k)
        invariant hits == InsertAll(old(hits), Prefixed("  ", done)) && Valid()
        invariant withBoundaryHits == (old(withBoundaryHits) || |done| > 0)
        decreases bytesRemaining
      {
        if offset + boundaryChunkSize > fileSizeBytes {
          break;
        }
        var ok := BoundaryStep(src, chunkSizeBytes, offset, boundaryChunkSize, bytesRemaining, seek, cfg, eng,
                               ws, outs, k, total, old(hits), old(withBoundaryHits), done);
        if !ok {
          return true;
        }
        done := done + outs[k].hits;
        k := k + 1;
        offset := offset + chunkSizeBytes;
        bytesRemaining := bytesRemaining - chunkSizeBytes;
        chunkIndex := chunkIndex + 1;
      }
      assert BoundaryWindowsFrom(fileSizeBytes, chunkSizeBytes, offset, boundaryChunkSize, bytesRemaining) == [];
      assert outs[k..] == [];
      assert total.hits == done && total.ok;
      return false;
    }

    /** The scan of one file: a fresh hit set; nothing more when the file
        exceeds a positive `-ms`; otherwise the primary pass and, unless it
        threw, the boundary pass, which reads its windows where the primary
        pass left the stream, at the end of the file. */
    method ScanFile(src: ByteSource, cfg: Settings, eng: Engines, ms: int) returns (skipped: bool)
      requires src.Valid() && cfg.Valid() && src.pos == 0
      modifies this, src
      ensures Valid()
      ensures skipped == SkipsFile(ms, |src.data|)
      ensures skipped ==> hits == [] && withBoundaryHits == old(withBoundaryHits)
      ensures !skipped ==> hits == InsertAll([], ScanHits(src.data, cfg, eng, false))
      ensures !skipped ==> withBoundaryHits == (old(withBoundaryHits) || FoundAcrossBoundary(src.data, cfg, eng, false))
    {
      hits := [];
      var fileSizeBytes := |src.data|;
      if ms > 0 {
        if fileSizeBytes > ms {
          return true;
        }
      }
      var aborted := PrimaryPass(src, cfg, eng);
      ghost var primary := CarveAll(PrimaryWindows(|src.data|, cfg.ChunkSize()), src.data, true, cfg, eng);
      if !aborted {
        aborted := BoundaryPass(src, cfg, eng, false);
        InsertAllAppend([], primary.hits,
          Prefixed("  ", CarveAll(BoundaryWindows(|src.data|, cfg.ChunkSize(), cfg.m), src.data, false, cfg, eng).hits));
      }
      InsertAllSpec([], ScanHits(src.data, cfg, eng, false));
      return false;
    }

    /** Corrected: the scan of one file with the boundary pass positioning
        the stream at each window before reading it, so that the boundary
        windows carve the file's bytes across each seam. */
    method ScanFileSeeking(src: ByteSource, cfg: Settings, eng: Engines, ms: int) returns (skipped: bool)
      requires src.Valid() && cfg.Valid() && src.pos == 0
      modifies this, src
      ensures Valid()
      ensures skipped == SkipsFile(ms, |src.data|)
      ensures skipped ==> hits == [] && withBoundaryHits == old(withBoundaryHits)
      ensures !skipped ==> hits == InsertAll([], ScanHits(src.data, cfg, eng, true))
      ensures !skipped ==> withBoundaryHits == (old(withBoundaryHits) || FoundAcrossBoundary(src.data, cfg, eng, true))
    {
      hits := [];
      var fileSizeBytes := |src.data|;
      if ms > 0 {
        if fileSizeBytes > ms {
          return true;
        }
      }
      var aborted := PrimaryPass(src, cfg, eng);
      ghost var primary := CarveAll(PrimaryWindows(|src.data|, cfg.ChunkSize()), src.data, true, cfg, eng);
      if !aborted {
        aborted := BoundaryPass(src, cfg, eng, true);
        InsertAllAppend([], primary.hits,
          Prefixed("  ", CarveAll(BoundaryWindows(|src.data|, cfg.ChunkSize(), cfg.m), src.data, true, cfg, eng).hits));
      }
      InsertAllSpec([], ScanHits(src.data, cfg, eng, true));
      return false;
    }
  }
}
