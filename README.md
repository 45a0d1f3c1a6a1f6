# bstrings, modelled in Dafny

bstrings is a forensic "strings" tool. It reads a file in chunks of `-b`
mebibytes and carves each chunk twice with regular expressions:

- once decoded as UTF-16LE (`--ur`);
- once decoded through a code page (`-a`, `--ar`, `--cp`).

A match becomes a hit: its text, trimmed, optionally tagged with the hit's
offset (`--off`). After the primary pass comes a second pass over small
windows that straddle each chunk seam. This pass finds strings the chunking
cut in two and prefixes them with two spaces.

The hits of a file form a hash set. The set may be sorted alphabetically
(`--sa`) or by length (`--sl`). It is then filtered by literal criteria
(`--ls`, `--fs`) and regular-expression criteria (`--lr`, `--fr`) and
counted. The repository also has a benchmark generator. It writes a file of
random bytes that contains no printable ASCII and plants two strings in it:
a UTF-16 text across the second chunk seam and an ASCII UNC path.

The model has one module per concern:

- `Bytes` and `ByteArray`: byte search. `ByteSearch` finds the first
  occurrence of a pattern from a start index. `Locate` and `IsMatch` find
  every occurrence.
- `Text`: the .NET string operations the carver relies on: `Trim`,
  `int.ToString`, the `X` format, `Split('\t').Last()`, and a case-insensitive
  `IndexOf` that folds A-Z only.
- `Carving`: `GetUnicodeHits` and `GetAsciiHits`. The regex engine and the
  decoders are function-valued parameters.
- `Config`: how `DoWork` clamps `-m`, `-x` and `-b`, and its code-page check.
- `Planner`: the windows of the primary and boundary passes.
- `Collector`: the hit set, modelled as an insertion-ordered list without
  repeats.
- `Scanner`: the stream, and a `Scan` class whose methods run the two passes
  and update the hit set and the `withBoundaryHits` flag in place.
- `Sorting`: the `--sa` and `--sl` sorts.
- `Filter`: the criteria sets and the counting loop.
- `Generator`: the benchmark generator, as a `MemoryStream` class over an
  array.

## Model

| member | source | states |
|---|---|---|
| Bytes.SearchFrom | bstrings/Program.cs:1005-1049 | The result is -1 or an index at or after `start` where the pattern occurs, with no occurrence before it. It is -1 exactly when the input or the pattern is empty or there is no occurrence from `start` on. |
| Bytes.OccurrencesFromSpec | bstrings/ByteArray.cs:14-30 | The list holds exactly the occurrences at or after `from`, in strictly increasing order, and no more of them than there are positions where the pattern fits. |
| Bytes.SearchFromIsFirstOccurrence | bstrings/Program.cs:1005-1049 | `ByteSearch` agrees with `Locate`: it returns the first element of the occurrence list, or -1 when the list is empty. |
| ByteArray.IsMatch | bstrings/ByteArray.cs:32-42 | Returns true exactly when the candidate occurs in the array at `position`. A candidate longer than the rest of the array never matches. |
| ByteArray.Locate | bstrings/ByteArray.cs:14-30 | Returns an empty list for a null or empty array or candidate, or for a candidate longer than the array. Otherwise it returns the list of every occurrence. |
| ByteArray.LocateResult | bstrings/ByteArray.cs:14-51 | What `Locate` returns holds only occurrences and holds all of them, in increasing order, and is bounded in length. It is empty when either array is null or the candidate is empty. |
| ByteArray.ExampleOccursOnlyAt8And26 | bstrings/ByteArray.cs:53-60 | In the example data of the commented-out demo, the pattern occurs at 8 and 26 and nowhere else. |
| ByteArray.ExampleOccurrences | bstrings/ByteArray.cs:53-60 | The occurrence list of the demo is exactly [8, 26]. |
| ByteArray.LocateDocumentedExample | bstrings/ByteArray.cs:53-60 | Running `Locate` on the demo's arrays returns [8, 26], the positions the demo prints. |
| Carving.NoCommaInDecimal | bstrings/Program.cs:978-979 | A decimal number has no comma, so the `{min,max}` quantifier built from two numbers splits at one comma only. |
| Carving.QuantifierRoundTrip | bstrings/Program.cs:978-979 | Parsing the quantifier bstrings builds gives back the minimum and the maximum it was built from. With no maximum (-1), the part after the comma is empty. |
| Carving.UnicodeOffsetIsBytePositionOnlyAtFileStart | bstrings/Program.cs:991 | The reported UTF-16 offset `(currentOffset + index) * 2` equals the match's byte position `currentOffset + 2 * index` exactly when the window starts at offset 0. |
| Carving.NoTabInOffsetField | bstrings/Program.cs:993 | The `0x<hex> (U)` or `(A)` field appended to a hit has no tab in it. |
| Carving.TaggedMeans | bstrings/Program.cs:993 | A tagged hit is the match with the white space at either end cut off, then a tab, then the offset field; the text before that last tab is exactly the trimmed match. |
| Carving.TaggedLastField | bstrings/Program.cs:993 | The last tab-separated field of a tagged hit is its offset field, with or without a prefix. Reading the hexadecimal back gives the offset as a 64-bit pattern. |
| Carving.UnicodeEntries | bstrings/Program.cs:987-998 | One hit per UTF-16 match. Without `--off` a hit is its match with the white space at either end cut off: a contiguous part of the match, with only white space before and after it, that neither starts nor ends with white space. With `--off` a hit is that trimmed match, a tab, and the `0x<hex> (U)` field of `(currentOffset + index) * 2`, which is therefore its last tab-separated field. |
| Carving.AsciiEntries | bstrings/Program.cs:1065-1082 | One hit per code-page match. Without `--off` a hit is its match with the white space at either end cut off: a contiguous part of the match, with only white space before and after it, that neither starts nor ends with white space. With `--off` a hit is that trimmed match, a tab, and the `0x<hex> (A)` field of the offset `ByteSearch` finds for the re-encoded match, which is therefore its last tab-separated field. |
| Carving.ByteSearch | bstrings/Program.cs:1005-1049 | The array search returns the first occurrence at or after `start`, the value `SearchFrom` specifies. The proof is loop invariants over both nested loops. |
| Carving.GetUnicodeHits | bstrings/Program.cs:975-1002 | Returns None when the `ur{min,max}` pattern does not compile, which is an exception in the source. Otherwise it returns one entry per match of the decoded text, in order. |
| Carving.AsciiMatchOffset | bstrings/Program.cs:1069-1074 | The offset is the window offset plus the first position, at or after the match's character index, where the match's re-encoded bytes occur. When they occur nowhere, the offset is the window offset minus one. |
| Carving.GetAsciiHits | bstrings/Program.cs:1051-1085 | Returns None when the code page is unknown or the pattern does not compile. Otherwise it returns one entry per match, in order. |
| Carving.AsciiOffsetSingleByte | bstrings/Program.cs:1069-1074 | With a single-byte code page whose encoding inverts its decoding, the `ByteSearch` offset of a non-empty match is exactly the window offset plus the match index. |
| Carving.EntryTextWithinMaximum | bstrings/Program.cs:978-997 | A trimmed match is never longer than the maximum length, when there is one, nor longer than the match. |
| Carving.TrimmedHitCanBeShorterThanMinimum | bstrings/Program.cs:997 | A 3-character match can become a 1-character hit once trimmed, so a hit may be shorter than `-m`. |
| Collector.InsertSpec | bstrings/Program.cs:471 | Adding keeps the set free of repeats, keeps what was there in place, adds exactly the new string, and changes nothing when the string is already present. |
| Collector.InsertAllSpec | bstrings/Program.cs:469-472 | Adding a list of hits keeps the set free of repeats and extends it. Afterwards a string is in the set exactly when it was before or it is in the list. |
| Collector.InsertAllPresent | bstrings/Program.cs:469-472 | Adding hits that are all present changes nothing. |
| Collector.InsertAllIdempotent | bstrings/Program.cs:469-472 | Adding the same hits twice is adding them once. |
| Collector.InsertAllAppend | bstrings/Program.cs:469-482 | Adding one list and then another is adding their concatenation, as when the UTF-16 hits and then the code-page hits of a window are added. |
| Collector.InsertAllDistinct | bstrings/Program.cs:582 | Building a set from a list without repeats keeps the list's order and contents. |
| Collector.Prefixed | bstrings/Program.cs:531 | Prefixing every hit keeps the number of hits. |
| Collector.PrefixedAt | bstrings/Program.cs:531 | Each prefixed hit is the two-space prefix followed by the hit. |
| Collector.PrefixedEmpty | bstrings/Program.cs:469-472 | An empty prefix leaves the hits unchanged, which is how the primary pass adds its hits. |
| Collector.PrefixedAppend | bstrings/Program.cs:529-547 | Prefixing distributes over concatenation. |
| Collector.InsertAllPrefixedAppend | bstrings/Program.cs:529-547 | Adding prefixed UTF-16 hits and then prefixed code-page hits is adding the prefixed concatenation. |
| Config.MinLength | bstrings/Program.cs:377-381 | The minimum length is `-m` when `-m` is positive, and 3 otherwise. It is always at least 1. |
| Config.MaxLength | bstrings/Program.cs:383-388 | The maximum is `-x` when `-x` exceeds the minimum, and -1 (no maximum) otherwise. A maximum, when present, always exceeds the minimum. |
| Config.ChunkSizeMb | bstrings/Program.cs:390-393 | The chunk size is `-b` when `-b` is in 1..1024, and 512 otherwise. |
| Config.ChunkSizeBytes | bstrings/Program.cs:394 | The byte size is a whole number of MiB between 1 MiB and 1 GiB, so the `int` product never overflows. |
| Config.Wrap32 | bstrings/Program.cs:507-511 | The value is in the `int` range and agrees with the exact value modulo 2^32. It equals the exact value when that value fits. |
| Config.Settings.ChunkSize | bstrings/Program.cs:390-394 | The chunk size of valid settings lies between 1 MiB and 1 GiB. |
| Config.Clamp | bstrings/Program.cs:377-394 | The settings are valid and hold the clamped minimum, maximum and chunk size. |
| Config.DefaultSettings | bstrings/Program.cs:377-394 | The default options give minimum 3, no maximum and 512 MiB chunks. |
| Config.UnknownCodePagePassesCheckAsWritten | bstrings/Program.cs:217-223 | A code page that does not exist passes the check as written, yet the corrected check rejects it, and the code-page carving then fails (an exception in the source). |
| Config.AcceptedCodePageCarves | bstrings/Program.cs:217-223 | When the corrected check accepts `--cp`, code-page carving fails only when the pattern does not compile. |
| Planner.PrimaryWindowsFromShape | bstrings/Program.cs:454-487 | Each window starts one chunk after the previous one. All but the last are full chunks. The last is non-empty and ends at the end of the file. There are no windows exactly when nothing remains. |
| Planner.PrimaryWindowsShape | bstrings/Program.cs:454-487 | The primary windows tile the file from offset 0: window k starts at k·chunk, and their number is the file size divided by the chunk size, rounded up. |
| Planner.BoundaryWindowsFromShape | bstrings/Program.cs:514-559 | Each boundary window starts one chunk after the previous one and has the same length. The loop stops at the first window that would pass the end of the file. |
| Planner.BoundaryWindowsShape | bstrings/Program.cs:505-559 | Boundary window k is centred on seam k·chunk and is 40·m bytes long. There is one per seam that has 20·m bytes of file after it. |
| Planner.SeamCoverage | bstrings/Program.cs:505-519 | Seam k gets a window exactly when 20·m bytes of file follow it. A run of at most 20·m bytes across the seam then lies wholly inside that window. |
| Planner.LastSeamUncovered | bstrings/Program.cs:514-519 | A file that ends less than 20·m bytes after a seam gets no window for that seam, so a string across it is found by neither pass. |
| Planner.NegativeMGivesNegativeLength | bstrings/Program.cs:511 | A negative `-m` (clamped for the length filter but used raw here) gives a negative window length, so allocating the window fails. |
| Scanner.ReadAt | bstrings/Program.cs:461-463 | Reading into a fresh buffer gives exactly the file's slice when the read fits in the file, the rest of the file followed by zeros when it runs past the end, and only zeros when it starts at or past the end. |
| Scanner.ByteSource.constructor | bstrings/Program.cs:437-449 | A stream over the file's bytes starts at position 0. |
| Scanner.ByteSource.Read | bstrings/Program.cs:463 | Copies up to `count` bytes from the position into the buffer, leaves the rest of the buffer alone, and advances the position by the number read. |
| Scanner.ByteSource.Seek | bstrings/Program.cs:521-523 | Moves the position to a non-negative offset and refuses a negative one. Only the corrected boundary pass seeks. |
| Scanner.ReadWindow | bstrings/Program.cs:521-523 | Allocates and fills one boundary window's buffer. It fails exactly when the length is negative, or when positioning is asked for at a negative offset. Otherwise the buffer holds the bytes the window delivers. |
| Scanner.FreshBufferRead | bstrings/Program.cs:461-463 | A `Read` into a zeroed buffer of `count` bytes yields exactly `ReadAt`. |
| Scanner.Then | bstrings/Program.cs:421-566 | Two carving steps succeed together only if both do, and the first step's hits come first. |
| Scanner.SequenceSpec | bstrings/Program.cs:421-566 | A pass succeeds exactly when every window does. It then yields all hits in window order. When window k is the first to throw, the pass yields the hits of windows 0..k and stops. |
| Scanner.UnseekedCarvingIgnoresContent | bstrings/Program.cs:521-523 | Without a seek, what the boundary windows carve does not depend on the file's contents, only on its length. |
| Scanner.UnseekedBoundaryPassSeesZeros | bstrings/Program.cs:505-559 | The boundary pass as written carves the same as it would over a file of zeros. |
| Scanner.UnseekedWindowMissesStraddlingRun | bstrings/Program.cs:505-523 | For a run across seam k, the window for that seam contains the run's position, but what it reads there is zero where the file's byte is not. |
| Scanner.SeekedWindowHoldsStraddlingRun | bstrings/Program.cs:505-523 | With a seek to the window's offset, the window holds the file's bytes, and the run across the seam appears in it unchanged. |
| Scanner.Scan.constructor | bstrings/Program.cs:361 | A scan starts with an empty hit set. |
| Scanner.Scan.AddAll | bstrings/Program.cs:469-472 | The hit set becomes the old set with the prefixed hits added and stays free of repeats. The boundary flag is unchanged. |
| Scanner.Scan.CarveWindow | bstrings/Program.cs:465-553 | Adds the window's UTF-16 and code-page hits (prefixed in the boundary pass) and reports whether carving threw. In the boundary pass it sets the flag when the window yielded any hit. |
| Scanner.Scan.CarvePrimaryWindow | bstrings/Program.cs:456-486 | Reads one primary window from the stream's position and adds that window's hits. The stream ends up at the window's end. |
| Scanner.Scan.PrimaryPass | bstrings/Program.cs:454-495 | Adds the hits of all primary windows, in order, up to the first window that throws. Aborts exactly when one throws. Otherwise it leaves the stream at the end of the file. |
| Scanner.Scan.CarvePrimaryWindows | bstrings/Program.cs:454-495 | The loop over the primary windows adds the hits of the pass's window sequence. |
| Scanner.Scan.CarveBoundaryWindow | bstrings/Program.cs:514-559 | Reads one boundary window, adds its hits with the two-space prefix, and sets the flag when there were any. |
| Scanner.Scan.BoundaryPass | bstrings/Program.cs:505-559 | Adds the prefixed hits of every boundary window up to the first that throws, and sets the flag exactly when the pass found a hit. |
| Scanner.Scan.CarveBoundaryWindows | bstrings/Program.cs:514-559 | The loop over the boundary windows adds the prefixed hits of the pass's window sequence. |
| Scanner.ScanHitsAsWritten | bstrings/Program.cs:454-559 | As written, a file's hits are its primary hits and, after them, the prefixed hits the boundary pass carves from a file of zeros of the same size. The flag is set exactly when that carving of zeros finds a hit. |
| Scanner.Scan.ScanFile | bstrings/Program.cs:361-566 | A file over the `--ms` limit is skipped with an empty hit set. Otherwise the set holds the primary pass's hits, each once, then, if that pass did not throw, those of the boundary pass as written, which reads every window at the end of the file. The flag is raised exactly when that boundary pass found a hit. |
| Scanner.Scan.ScanFileSeeking | bstrings/Program.cs:361-566 | The corrected scan. A file over the `--ms` limit is skipped with an empty hit set. Otherwise the set holds the primary pass's hits, each once, then, if that pass did not throw, those of a boundary pass that reads each window where it starts in the file. The flag is raised exactly when that pass found a hit. |
| Sorting.InsertSorted | bstrings/Program.cs:580-581 | Placing a string into a list keeps every string and adds that one. |
| Sorting.SortBy | bstrings/Program.cs:580-581 | The sorted list is a permutation of the input. |
| Sorting.InsertSortedSorted | bstrings/Program.cs:580-581 | Placing a string into a sorted list keeps it sorted under any total order. |
| Sorting.SortBySorted | bstrings/Program.cs:580-581 | The sorted list is sorted under any total order. |
| Sorting.SortByDistinct | bstrings/Program.cs:580-582 | Sorting a list without repeats keeps it without repeats. |
| Sorting.SortByLengthStable | bstrings/Program.cs:967-973 | The strings of each `Length`, counted in UTF-16 code units, keep their order. |
| Sorting.SortByLengthSpec | bstrings/Program.cs:967-973 | `SortByLength` returns a permutation of its input in which the UTF-16 `Length` never decreases, and strings of equal `Length` keep their input order. |
| Sorting.SortByLengthCountsCodeUnits | bstrings/Program.cs:967-973 | A character beyond U+FFFF counts as two code units: "\U{1F600}a" has `Length` 3 and sorts after "ab", whose `Length` is 2. |
| Sorting.SortedHitSet | bstrings/Program.cs:580-589 | Building a set from the sorted list of a set keeps the sorted order and contents. |
| Sorting.SortHitsSpec | bstrings/Program.cs:576-590 | After sorting, the set holds the same hits, each once. They are ordered by the comparer with `--sa`, by UTF-16 `Length` with `--sl` alone, and unchanged otherwise. |
| Filter.Criteria | bstrings/Program.cs:606-631 | A criteria set has no repeats, starts with the command-line criterion, and holds exactly that criterion and the lines of the list file, when the file exists. |
| Filter.FileStrings | bstrings/Program.cs:592-618 | The literal criteria are exactly `--ls` when non-empty and the lines of the `--fs` file. |
| Filter.RegexStrings | bstrings/Program.cs:593-630 | The pattern criteria are exactly the pattern `--lr` names when `--lr` is non-empty (a catalog entry or `--lr` itself) and the lines of the `--fr` file. |
| Filter.MatchLines | bstrings/Program.cs:705-713 | With `--ro`, one line per match: the match, a tab and the hit offset. |
| Filter.FilterHits | bstrings/Program.cs:647-743 | The loop over the hits produces the count and the lines of the filter's specification. |
| Filter.FilterHit | bstrings/Program.cs:649-742 | One hit's contribution: nothing for an empty hit, the literal tally plus the pattern tally when there are criteria, and one count and one line otherwise. |
| Filter.FilterLiterals | bstrings/Program.cs:656-676 | The loop over the literal criteria computes the literal tally. |
| Filter.FilterPatterns | bstrings/Program.cs:678-729 | The loop over the pattern criteria computes the pattern tally, with the hit offset built once per hit. |
| Filter.FilterPattern | bstrings/Program.cs:686-728 | One pattern: nothing when it is blank, does not compile or does not match. Otherwise one count, and either the hit or one line per match (`--ro`). |
| Filter.WriteMatches | bstrings/Program.cs:705-713 | Appends the match lines to what was written. |
| Filter.NoCriteriaCountsNonEmptyHits | bstrings/Program.cs:647-743 | With no criteria, the count is the number of non-empty hits, and each hit is written once, in order. |
| Filter.BlankCriteriaReportNothing | bstrings/Program.cs:654-729 | When criteria exist but all are blank, nothing is counted or written. |
| Filter.BlankLiteralsCountNothing | bstrings/Program.cs:658-661 | Blank literal criteria count nothing. |
| Filter.BlankPatternsCountNothing | bstrings/Program.cs:686-689 | Blank pattern criteria count nothing. |
| Filter.PatternTallyAppend | bstrings/Program.cs:684-729 | The tally over two lists of patterns is the tally over the first, followed by the tally over the second. |
| Filter.RejectedPatternAddsNothing | bstrings/Program.cs:691-728 | A pattern that does not compile is logged and skipped. The remaining patterns count as if it were absent. |
| Filter.LiteralSatisfiedSpec | bstrings/Program.cs:658-666 | A literal counts for a hit exactly when it is not blank and occurs somewhere in the hit, ignoring the case of A-Z. |
| Filter.LiteralTallyBound | bstrings/Program.cs:656-676 | The literals count a hit at most once each. |
| Filter.LiteralTallyLines | bstrings/Program.cs:668-675 | The literal loop writes the hit once per count. |
| Filter.LiteralTallyPositive | bstrings/Program.cs:656-676 | The literals count a hit exactly when the hit satisfies one of them. |
| Filter.PatternTallyBound | bstrings/Program.cs:684-729 | The patterns count a hit at most once each. |
| Filter.PatternTallyLines | bstrings/Program.cs:715-723 | Without `--ro`, the pattern loop writes the hit once per count. |
| Filter.PatternTallyPositive | bstrings/Program.cs:684-729 | The patterns count a hit exactly when one of them is non-blank, compiles and matches it. |
| Filter.HitCounted | bstrings/Program.cs:647-743 | A hit is counted exactly when it is non-empty and either there are no criteria or it satisfies one of them. |
| Filter.HitTallyBound | bstrings/Program.cs:647-743 | A hit is counted at most once per criterion, or once when there are none. Without `--ro` it is written once per count. |
| Filter.HitOffsetOfTaggedHit | bstrings/Program.cs:678-682 | With `--off`, the hit offset of a tagged hit from either pass is a tilde followed by its offset field. |
| Filter.LiteralHitCounted | bstrings/Program.cs:656-676 | With one literal criterion, a non-empty hit that holds it is counted once and written once. |
| Filter.LiteralHitNotCounted | bstrings/Program.cs:656-676 | With one literal criterion, a hit that does not hold it adds nothing. |
| Filter.TwoHitsOneCounted | bstrings/Program.cs:647-743 | Over two hits, the first counted once and the second not at all, the total is one count and one line. |
| Filter.LiteralFilterExample | bstrings/Program.cs:654-676 | The literal "forensics" over the hits "forensics" and "unrelated" gives one count, with "forensics" written once. |
| Text.TrimSpec | bstrings/Program.cs:993-997 | `Trim` keeps a contiguous middle part. What it cuts from either side is white space, and what it keeps neither starts nor ends with white space. |
| Text.TrimIdempotent | bstrings/Program.cs:993-997 | Trimming a trimmed hit changes nothing. |
| Text.DecimalRoundTrip | bstrings/Program.cs:978-979 | The decimal text of a number reads back as that number. |
| Text.HexLongRoundTrip | bstrings/Program.cs:993 | The `X` format of an offset reads back as the offset modulo 2^64, and as the offset itself when it is a non-negative `long`. |
| Text.LastField | bstrings/Program.cs:681 | The last field is a suffix of the hit without a tab, preceded by a tab when it is not the whole hit. |
| Text.LastFieldAfterTab | bstrings/Program.cs:681 | Whatever comes before the last tab, the last field is what follows it. |
| Text.Utf16Length | bstrings/Program.cs:970 | `s.Length` counts UTF-16 code units: at least the number of characters and at most twice it, and equal to it exactly when no character lies beyond U+FFFF. |
| Text.IndexOfIgnoreCaseSpec | bstrings/Program.cs:663 | The search returns the first index where the criterion occurs ignoring the case of A-Z, and -1 exactly when it occurs nowhere. |
| Generator.MaxRngValue | dev-tools/benchmark-generator/Program.cs:19-21 | `maxRng` is 161: 256 byte values less the 95 printable ones. |
| Generator.RemapSpec | dev-tools/benchmark-generator/Program.cs:26-31 | A remapped draw is never printable ASCII. The remap is one-to-one from the draws onto the non-printable bytes. |
| Generator.Utf16LeAt | dev-tools/benchmark-generator/Program.cs:38 | Each character becomes its low byte followed by its high byte. |
| Generator.AsciiAt | dev-tools/benchmark-generator/Program.cs:43 | Each character becomes its own code as one byte. |
| Generator.BoundaryTextPrintable | dev-tools/benchmark-generator/Program.cs:37-40 | The planted UTF-16 text has a printable byte at every even position and a zero at every odd one. |
| Generator.UncPathPrintable | dev-tools/benchmark-generator/Program.cs:42-45 | Every byte of the planted UNC path is printable. |
| Generator.OverwriteSpec | dev-tools/benchmark-generator/Program.cs:39-45 | Writing at a position puts the bytes there and leaves every other byte as it was. A gap past the old end becomes zeros. |
| Generator.OverwriteAtEnd | dev-tools/benchmark-generator/Program.cs:31 | Writing at the end of the stream appends. |
| Generator.FillSpec | dev-tools/benchmark-generator/Program.cs:24-32 | The fill holds one remapped, non-printable byte per draw. |
| Generator.BenchmarkLayout | dev-tools/benchmark-generator/Program.cs:14-45 | The file is 512 MiB. The text sits at 20 MiB − 24 and the UNC path at 0x4000000. Every other byte is the remapped draw, and the only printable bytes are in the two planted strings. |
| Generator.PlantedAcrossSeam | dev-tools/benchmark-generator/Program.cs:37-45 | The text straddles the 20 MiB seam. The UNC path straddles no seam of 10 MiB chunks. |
| Generator.BoundaryTextReportedOffset | dev-tools/benchmark-generator/Program.cs:37-40 | With `-b 10` and the default `-m`, the second boundary window holds the text at character index 18, and a boundary pass that positions the stream at the window would report 0x27FFFAC, the address in the generator's comment, although the text lies at byte 0x13FFFE8. As written the window reads zeros, so nothing is reported from it. |
| Generator.MemoryStream.constructor | dev-tools/benchmark-generator/Program.cs:22 | A new stream with the given capacity is empty, at position 0. |
| Generator.MemoryStream.SetPosition | dev-tools/benchmark-generator/Program.cs:39 | Sets the position and leaves the contents alone. |
| Generator.MemoryStream.Extend | dev-tools/benchmark-generator/Program.cs:40 | Lengthening the stream pads it with zeros. |
| Generator.MemoryStream.WriteByte | dev-tools/benchmark-generator/Program.cs:31 | Writes one byte at the position and advances it. |
| Generator.MemoryStream.Write | dev-tools/benchmark-generator/Program.cs:40 | Writes the bytes at the position and advances it by their number. |
| Generator.Generate | dev-tools/benchmark-generator/Program.cs:16-48 | The generated stream holds exactly the benchmark layout and is rewound to position 0. |

## Left out

- File and directory enumeration, the `--mask` filter, command-line parsing, logging, the stopwatch, the console and the output file are not modelled. The model's outputs are the hit set and the list of lines written.
- The `-s` and `-q` flags affect only console output, so they are not parameters.
- `AddHighlightingRules` colours console output only. `--ro` changes only whether patterns are highlighted and which lines the pattern loop writes, and only the second is modelled.
- The regular-expression engine, `Encoding.Unicode`, `CodePagesEncodingProvider` and the `RegExPatterns` catalog are parameters: function values and a map. The model proves nothing about .NET's regex semantics. Lemmas that need the reported matches to be substrings of the text state that as a requirement.
- Whether the `--fs` and `--fr` files exist, and what lines they hold, is a parameter (`Option<seq<string>>`). File reading is not modelled.
- The memory-mapped stream and the raw-disk fallback (`OpenFile`) are one `ByteSource` over the file's bytes.
- `totalChunks` and `chunkIndex` feed only log messages, so they are not modelled.
- The hash set is an insertion-ordered list without repeats. .NET does not promise any enumeration order, so the order of written lines is the model's choice. Contents and counts do not depend on it.
- Sorting.SortBy: `List.Sort` with the default culture comparer is an introsort and is not stable. The model sorts by insertion and leaves ties in input order, and the comparer is any total order passed as a parameter.
- The totals over all files (`globalCounter`, `globalHits`) are sums of the per-file counts and are not modelled.
- `withBoundaryHits` is never reset between files. Its only use is a log message, and `Scan.ScanFile` models one file.
- Carving.EntryTextWithinMaximum: the minimum length is not promised for hits, because `Trim` can shorten a match below `-m` (see `Carving.TrimmedHitCanBeShorterThanMinimum`).
- Carving.UnicodeOffsetIsBytePositionOnlyAtFileStart: the model follows the code's `(currentOffset + index) * 2`, which doubles the window start as well. It is a byte position only for the window at offset 0. The generator's own comment (address 0x27FFFAC) expects this value.
- The generator's `Random(0x42)` becomes the sequence of draws, a parameter. `MemoryStream` growth beyond its initial capacity is not modelled, because the generator never writes past its capacity. Copying the stream to `benchmark.dmp` (dev-tools/benchmark-generator/Program.cs:49-52) is I/O and is not modelled.
- Generator.MemoryStream.Write: `Write(buffer, 0, count)` is modelled for a whole buffer only, which is the only way the generator calls it.
- Text.IndexOfIgnoreCase: `InvariantCultureIgnoreCase` is narrowed to folding A-Z. Other case pairs (É and é under `--cp 1252` with a wider `--ar`) and characters the invariant culture ignores (such as U+00AD) are compared as they are. Culture data is not part of this model. The default character classes carve ASCII only, where the two agree except for ignorable characters.
- Text.IndexOfIgnoreCaseSpec: the first-index and -1 characterisation holds for the A-Z folding above, not for the culture-aware comparison.
- Filter.LiteralSatisfiedSpec: "ignoring case" means ignoring the case of A-Z, for the same reason.
- Carving.UnicodeEntries, Carving.GetUnicodeHits and Carving.WellFormedMatches: Dafny strings are sequences of Unicode scalar values, while .NET strings are sequences of UTF-16 code units. Match indices, match lengths and the `{min,max}` bounds count characters here, so they stand for .NET's only on text without characters beyond U+FFFF. The UTF-16 decoder is a parameter returning characters, so a surrogate pair in a window becomes one character here but two code units in .NET, and the match indices after it differ. Only `--sl`'s `Length` is counted in code units (`Text.Utf16Length`).
- Exceptions other than a pattern that does not compile, an unknown code page and a negative window length (out of memory, I/O errors) are not modelled.

## Findings

| source | as written | input that shows it | evidently intended | confidence | as-written member | corrected member |
|---|---|---|---|---|---|---|
| bstrings/Program.cs:505-523 | The boundary pass reads each window with `mappedStream.Read` but never seeks. After the primary pass the stream is at the end of the file, so every boundary window is all zeros and finds nothing. | Any file longer than one chunk plus 20·m bytes with a non-zero byte in a seam window, for example the benchmark file with `-b 10`: the text across the 20 MiB seam reads as zeros. | Seek to each window's offset before reading, so a string cut by a seam is carved from the file's bytes (`Scanner.SeekedWindowHoldsStraddlingRun`). The generator's comment expects the text across the 20 MiB seam to be reported at 0x27FFFAC, which only a seeking pass can do. | not executed | Scanner.UnseekedWindowMissesStraddlingRun | Scanner.Scan.ScanFileSeeking |
| bstrings/Program.cs:217-223 | The code-page check asks for code page 1252 instead of `--cp`, so it passes for any `--cp`. | `--cp 99` (no such code page): the check passes. Then `GetString` on the null encoding throws in the first window's code-page carve, and the catch around the file's scan ends that scan. Each file keeps only the UTF-16 hits of its first window, and the boundary pass never runs. | Ask for the code page `--cp` names and stop with the warning when there is none. | not executed | Config.UnknownCodePagePassesCheckAsWritten | Config.AcceptedCodePageCarves |
