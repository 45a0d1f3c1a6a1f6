/** Carving one window of bytes (bstrings/Program.cs, `GetUnicodeHits`,
    `GetAsciiHits`, `ByteSearch`): decode the window, run the pattern
    "<character class>{min,max}" over the text, and turn each match into a
    hit string, optionally tagged with the byte offset of the match and the
    encoding it was found in. The regular-expression engine and the text
    codecs are library code; they enter the model as function values. */
module Carving {
  import opened Wrappers
  import opened Bytes
  import opened Text

  /** One `System.Text.RegularExpressions.Match`: where it starts in the text
      searched and the text it matched. */
  datatype RegexMatch = RegexMatch(index: nat, value: string)

  /** The regular-expression engine as the carver uses it: whether
      `new Regex(pattern)` accepts a pattern (it throws otherwise), and the
      successive matches of an accepted pattern in a text. */
  datatype Regex = Regex(accepts: string -> bool, matches: (string, string) -> seq<RegexMatch>)

  /** A text encoding: `GetString` and `GetBytes`. */
  datatype Codec = Codec(decode: seq<byte> -> string, encode: string -> seq<byte>)

  /** The library services a scan depends on: the regex engine, the
      little-endian UTF-16 decoder (`Encoding.Unicode.GetString`), and the
      code page the `--cp` identifier names, if the code-page provider knows
      it (`GetEncoding` answers null otherwise). */
  datatype Engines = Engines(regex: Regex, unicode: seq<byte> -> string, codePage: Option<Codec>)

  /** What the engine promises about the matches of a pattern with a
      `{minSize,maxSize}` quantifier: each lies inside the text and is the
      text found there, its length lies within the bounds, and the matches
      do not overlap and come in increasing order. */
  ghost predicate WellFormedMatches(ms: seq<RegexMatch>, text: string, minSize: int, maxSize: int)
  {
    && (forall k :: 0 <= k < |ms| ==>
          && ms[k].index + |ms[k].value| <= |text|
          && ms[k].value == text[ms[k].index..ms[k].index + |ms[k].value|]
          && minSize <= |ms[k].value|
          && (maxSize == -1 || |ms[k].value| <= maxSize))
    && (forall k :: 0 <= k < |ms| - 1 ==> ms[k].index + |ms[k].value| <= ms[k + 1].index)
  }

  /** The quantifier appended to the character class: "{min,}" when there is
      no maximum (-1), otherwise "{min,max}". */
  function Quantifier(minSize: int, maxSize: int): string
  {
    "{" + Decimal(minSize) + "," + (if maxSize == -1 then "" else Decimal(maxSize)) + "}"
  }

  /** The first index of `c` in `s`, or -1. */
  function IndexOfChar(s: string, c: char): (r: int)
    ensures r == -1 ==> c !in s
    ensures r != -1 ==> 0 <= r < |s| && s[r] == c && c !in s[..r]
  {
    if s == [] then -1
    else if s[0] == c then 0
    else var r := IndexOfChar(s[1..], c); if r == -1 then -1 else r + 1
  }

  /** In `a`, the separator, then `b`, with no separator in `a`, the first
      separator is the one after `a`. */
  lemma IndexOfCharAfter(a: string, b: string, c: char)
    requires c !in a
    ensures IndexOfChar(a + [c] + b, c) == |a|
  {
    var s := a + [c] + b;
    var r := IndexOfChar(s, c);
    assert s[|a|] == c && s[..|a|] == a;
    assert forall k :: |a| < k <= |s| ==> s[..k][|a|] == c;
  }

  /** Reads a quantifier back into its bounds, -1 standing for "no maximum". */
  function QuantifierBounds(q: string): Option<(int, int)>
  {
    if |q| < 2 || q[0] != '{' || q[|q| - 1] != '}' then None
    else
      var body := q[1..|q| - 1];
      var k := IndexOfChar(body, ',');
      if k < 0 then None
      else
        var hi := body[k + 1..];
        Some((ParseDecimal(body[..k]), if hi == [] then -1 else ParseDecimal(hi)))
  }

  /** A printed number holds no comma. */
  lemma NoCommaInDecimal(n: int)
    ensures ',' !in Decimal(n)
  {
    var d := ToDigits(if n < 0 then -n else n, 10);
    assert DigitValue(',') == -1;
    assert forall k :: 0 <= k < |d| ==> d[k] != ',';
  }

  /** A quantifier whose lower bound holds no comma reads back as the two
      numbers on either side of the comma. */
  lemma QuantifierBoundsOf(a: string, b: string)
    requires ',' !in a
    ensures QuantifierBounds("{" + a + "," + b + "}") == Some((ParseDecimal(a), if b == [] then -1 else ParseDecimal(b)))
  {
    var q := "{" + a + "," + b + "}";
    var body := q[1..|q| - 1];
    assert body == a + "," + b;
    IndexOfCharAfter(a, b, ',');
    assert body[..|a|] == a;
    assert body[|a| + 1..] == b;
  }

  /** The quantifier text states exactly the bounds it was built from. */
  lemma QuantifierRoundTrip(minSize: int, maxSize: int)
    ensures QuantifierBounds(Quantifier(minSize, maxSize)) == Some((minSize, maxSize))
  {
    var a := Decimal(minSize);
    var b := if maxSize == -1 then "" else Decimal(maxSize);
    assert Quantifier(minSize, maxSize) == "{" + a + "," + b + "}";
    NoCommaInDecimal(minSize);
    QuantifierBoundsOf(a, b);
    DecimalRoundTrip(minSize);
    if maxSize != -1 {
      DecimalRoundTrip(maxSize);
    }
  }

  /** The offset reported for a UTF-16 match: the window start plus the
      match's character index, doubled. */
  function UnicodeOffset(currentOffset: int, index: nat): int
  {
    (currentOffset + index) * 2
  }

  /** The reported UTF-16 offset is the byte position of the match in the
      file, `currentOffset + 2 * index`, only for the window at offset 0: for
      any later window it also doubles the window start. */
  lemma UnicodeOffsetIsBytePositionOnlyAtFileStart(currentOffset: int, index: nat)
    ensures UnicodeOffset(currentOffset, index) == currentOffset + 2 * index <==> currentOffset == 0
  {
  }

  /** The suffix after the offset: the encoding the hit was found in. */
  const UnicodeSuffix: string := " (U)"
  const AsciiSuffix: string := " (A)"

  /** A hit carrying its offset: the trimmed match, a tab, "0x", the offset in
      upper-case hexadecimal, and the encoding suffix. */
  function Tagged(value: string, offset: int, suffix: string): string
  {
    Trim(value) + "\t" + "0x" + HexLong(offset) + suffix
  }

  /** The offset part of a tagged hit. */
  function OffsetField(offset: int, suffix: string): string
  {
    "0x" + HexLong(offset) + suffix
  }

  /** The offset field holds no tab. */
  lemma NoTabInOffsetField(offset: int, suffix: string)
    requires suffix == UnicodeSuffix || suffix == AsciiSuffix
    ensures '\t' !in OffsetField(offset, suffix)
  {
    var hex := HexLong(offset);
    var field := OffsetField(offset, suffix);
    assert DigitValue('\t') == -1;
    assert forall k :: 0 <= k < |hex| ==> hex[k] != '\t';
    forall k | 0 <= k < |field| ensures field[k] != '\t' {
      if 2 <= k < 2 + |hex| {
        assert field[k] == hex[k - 2];
      }
    }
  }

  /** The last tab-separated field of a tagged hit, with or without the
      two-space prefix of the boundary pass, is its offset field, and the
      hexadecimal in it reads back as the offset (as a 64-bit pattern). */
  lemma TaggedLastField(value: string, offset: int, suffix: string, prefix: string)
    requires suffix == UnicodeSuffix || suffix == AsciiSuffix
    ensures LastField(prefix + Tagged(value, offset, suffix)) == OffsetField(offset, suffix)
    ensures var field := OffsetField(offset, suffix);
      FromDigits(field[2..|field| - 4], 16) == offset % TwoTo64
  {
    var field := OffsetField(offset, suffix);
    NoTabInOffsetField(offset, suffix);
    var head := prefix + Trim(value);
    assert prefix + Tagged(value, offset, suffix) == head + "\t" + field;
    LastFieldAfterTab(head, field);
    OffsetFieldDigits(offset, suffix);
  }

  /** Between "0x" and the suffix, the offset field holds the hexadecimal of
      the offset, which reads back as its 64-bit pattern. */
  lemma OffsetFieldDigits(offset: int, suffix: string)
    requires |suffix| == 4
    ensures var field := OffsetField(offset, suffix);
      FromDigits(field[2..|field| - 4], 16) == offset % TwoTo64
  {
    var field := OffsetField(offset, suffix);
    assert field[2..|field| - 4] == HexLong(offset);
    HexLongRoundTrip(offset);
  }

  /** `entry` is `value` with the white space at either end cut off: the
      part of `value` that follows its leading white space, ends before its
      trailing white space, and itself neither starts nor ends with white
      space. */
  ghost predicate TrimmedFrom(entry: string, value: string)
  {
    var i := |value| - |TrimStart(value)|;
    && 0 <= i && i + |entry| <= |value| && entry == value[i..i + |entry|]
    && (forall k :: 0 <= k < i ==> IsWhiteSpace(value[k]))
    && (forall k :: i + |entry| <= k < |value| ==> IsWhiteSpace(value[k]))
    && (entry == [] || (!IsWhiteSpace(entry[0]) && !IsWhiteSpace(entry[|entry| - 1])))
  }

  /** `entry` is a tagged hit of `value`: `value` with the white space at
      either end cut off, a tab, and then `field`, which is therefore its
      last tab-separated field. */
  ghost predicate TaggedWith(entry: string, value: string, field: string)
  {
    var n := |entry| - |field| - 1;
    && 0 <= n && entry[n] == '\t' && entry[n + 1..] == field
    && TrimmedFrom(entry[..n], value)
    && LastField(entry) == field
  }

  /** What a hit says about its match: untagged, it is the match with the
      white space at either end cut off; tagged, it is that, a tab and the
      offset field. */
  ghost predicate EntryMeaning(entry: string, value: string, offset: int, suffix: string, withOffsets: bool)
  {
    && (!withOffsets ==> TrimmedFrom(entry, value))
    && (withOffsets ==> TaggedWith(entry, value, OffsetField(offset, suffix)))
  }

  /** A trimmed match is its match with the white space at either end cut off. */
  lemma TrimmedFromTrim(value: string)
    ensures TrimmedFrom(Trim(value), value)
  {
    TrimSpec(value);
  }

  /** A tagged hit is the trimmed match, a tab and the offset field. */
  lemma TaggedSplit(value: string, offset: int, suffix: string)
    ensures Tagged(value, offset, suffix) == Trim(value) + "\t" + OffsetField(offset, suffix)
  {
  }

  /** The parts of `head + "\t" + field`, by position. */
  lemma TabJoinParts(head: string, field: string)
    ensures var e := head + "\t" + field;
      && |e| - |field| - 1 == |head|
      && e[..|head|] == head && e[|head|] == '\t' && e[|head| + 1..] == field
  {
    var e := head + "\t" + field;
    assert e[..|head|] == head;
    assert e[|head| + 1..] == field;
  }

  /** A tagged hit is tagged with its offset field in the sense of `TaggedWith`. */
  lemma TaggedMeans(value: string, offset: int, suffix: string)
    requires suffix == UnicodeSuffix || suffix == AsciiSuffix
    ensures TaggedWith(Tagged(value, offset, suffix), value, OffsetField(offset, suffix))
  {
    var field, head := OffsetField(offset, suffix), Trim(value);
    TaggedSplit(value, offset, suffix);
    TabJoinParts(head, field);
    TrimmedFromTrim(value);
    TaggedLastField(value, offset, suffix, "");
    assert "" + Tagged(value, offset, suffix) == Tagged(value, offset, suffix);
  }

  /** A hit, tagged or not, means what `EntryMeaning` says. */
  lemma EntryMeans(value: string, offset: int, suffix: string, withOffsets: bool)
    requires suffix == UnicodeSuffix || suffix == AsciiSuffix
    ensures EntryMeaning(if withOffsets then Tagged(value, offset, suffix) else Trim(value), value, offset, suffix, withOffsets)
  {
    if withOffsets {
      TaggedMeans(value, offset, suffix);
    } else {
      TrimmedFromTrim(value);
    }
  }

  /** The hit for one UTF-16 match. */
  function UnicodeEntry(m: RegexMatch, currentOffset: int, withOffsets: bool): string
  {
    if withOffsets then Tagged(m.value, UnicodeOffset(currentOffset, m.index), UnicodeSuffix) else Trim(m.value)
  }

  /** The offset reported for a code-page match: the window start plus the
      position `ByteSearch` finds for the re-encoded match, searching from the
      match's character index; a miss (-1) yields the window start minus one. */
  function AsciiOffset(bytes: seq<byte>, codec: Codec, currentOffset: int, m: RegexMatch): int
  {
    currentOffset + SearchFrom(bytes, codec.encode(m.value), m.index)
  }

  /** The hit for one code-page match. */
  function AsciiEntry(bytes: seq<byte>, codec: Codec, m: RegexMatch, currentOffset: int, withOffsets: bool): string
  {
    if withOffsets then Tagged(m.value, AsciiOffset(bytes, codec, currentOffset, m), AsciiSuffix) else Trim(m.value)
  }

  /** One hit per UTF-16 match, in match order. Without offsets a hit is its
      match with the white space at either end cut off; with offsets it is
      that, a tab and the field of the match's reported offset. */
  function UnicodeEntries(ms: seq<RegexMatch>, currentOffset: int, withOffsets: bool): (r: seq<string>)
    ensures |r| == |ms|
    ensures forall k :: 0 <= k < |ms| && !withOffsets ==> TrimmedFrom(r[k], ms[k].value)
    ensures forall k :: 0 <= k < |ms| && withOffsets ==>
      TaggedWith(r[k], ms[k].value, OffsetField(UnicodeOffset(currentOffset, ms[k].index), UnicodeSuffix))
  {
    var r := seq(|ms|, k requires 0 <= k < |ms| => UnicodeEntry(ms[k], currentOffset, withOffsets));
    assert forall k :: 0 <= k < |ms| ==> EntryMeaning(r[k], ms[k].value, UnicodeOffset(currentOffset, ms[k].index), UnicodeSuffix, withOffsets) by {
      forall k | 0 <= k < |ms|
        ensures EntryMeaning(r[k], ms[k].value, UnicodeOffset(currentOffset, ms[k].index), UnicodeSuffix, withOffsets)
      {
        EntryMeans(ms[k].value, UnicodeOffset(currentOffset, ms[k].index), UnicodeSuffix, withOffsets);
      }
    }
    r
  }

  /** The hits of one more match are the hits so far plus that match's. */
  lemma UnicodeEntriesSnoc(ms: seq<RegexMatch>, k: nat, currentOffset: int, withOffsets: bool)
    requires k < |ms|
    ensures UnicodeEntries(ms[..k + 1], currentOffset, withOffsets)
         == UnicodeEntries(ms[..k], currentOffset, withOffsets) + [UnicodeEntry(ms[k], currentOffset, withOffsets)]
  {
    var a := UnicodeEntries(ms[..k + 1], currentOffset, withOffsets);
    var b := UnicodeEntries(ms[..k], currentOffset, withOffsets) + [UnicodeEntry(ms[k], currentOffset, withOffsets)];
    forall j | 0 <= j <= k ensures a[j] == b[j] {
      assert ms[..k + 1][j] == ms[j];
      if j < k {
        assert ms[..k][j] == ms[j];
      }
    }
  }

  /** One hit per code-page match, in match order. Without offsets a hit is
      its match with the white space at either end cut off; with offsets it
      is that, a tab and the field of the offset `ByteSearch` found for the
      match. */
  function AsciiEntries(bytes: seq<byte>, codec: Codec, ms: seq<RegexMatch>, currentOffset: int, withOffsets: bool): (r: seq<string>)
    ensures |r| == |ms|
    ensures forall k :: 0 <= k < |ms| && !withOffsets ==> TrimmedFrom(r[k], ms[k].value)
    ensures forall k :: 0 <= k < |ms| && withOffsets ==>
      TaggedWith(r[k], ms[k].value, OffsetField(AsciiOffset(bytes, codec, currentOffset, ms[k]), AsciiSuffix))
  {
    var r := seq(|ms|, k requires 0 <= k < |ms| => AsciiEntry(bytes, codec, ms[k], currentOffset, withOffsets));
    assert forall k :: 0 <= k < |ms| ==> EntryMeaning(r[k], ms[k].value, AsciiOffset(bytes, codec, currentOffset, ms[k]), AsciiSuffix, withOffsets) by {
      forall k | 0 <= k < |ms|
        ensures EntryMeaning(r[k], ms[k].value, AsciiOffset(bytes, codec, currentOffset, ms[k]), AsciiSuffix, withOffsets)
      {
        EntryMeans(ms[k].value, AsciiOffset(bytes, codec, currentOffset, ms[k]), AsciiSuffix, withOffsets);
      }
    }
    r
  }

  /** The hits of one more match are the hits so far plus that match's. */
  lemma AsciiEntriesSnoc(bytes: seq<byte>, codec: Codec, ms: seq<RegexMatch>, k: nat, currentOffset: int, withOffsets: bool)
    requires k < |ms|
    ensures AsciiEntries(bytes, codec, ms[..k + 1], currentOffset, withOffsets)
         == AsciiEntries(bytes, codec, ms[..k], currentOffset, withOffsets) + [AsciiEntry(bytes, codec, ms[k], currentOffset, withOffsets)]
  {
    var a := AsciiEntries(bytes, codec, ms[..k + 1], currentOffset, withOffsets);
    var b := AsciiEntries(bytes, codec, ms[..k], currentOffset, withOffsets) + [AsciiEntry(bytes, codec, ms[k], currentOffset, withOffsets)];
    forall j | 0 <= j <= k ensures a[j] == b[j] {
      assert ms[..k + 1][j] == ms[j];
      if j < k {
        assert ms[..k][j] == ms[j];
      }
    }
  }

  /** The list `GetUnicodeHits` returns, or None when constructing the regex
      throws. */
  function UnicodeHits(bytes: seq<byte>, minSize: int, maxSize: int, currentOffset: int,
                       withOffsets: bool, ur: string, eng: Engines): Option<seq<string>>
  {
    var pattern := ur + Quantifier(minSize, maxSize);
    if !eng.regex.accepts(pattern) then None
    else
      var ms := eng.regex.matches(pattern, eng.unicode(bytes));
      Some(UnicodeEntries(ms, currentOffset, withOffsets))
  }

  /** The list `GetAsciiHits` returns, or None when constructing the regex
      throws or the code page is unknown (a null encoding is dereferenced). */
  function AsciiHits(bytes: seq<byte>, minSize: int, maxSize: int, currentOffset: int,
                     withOffsets: bool, ar: string, eng: Engines): Option<seq<string>>
  {
    var pattern := ar + Quantifier(minSize, maxSize);
    if !eng.regex.accepts(pattern) || eng.codePage.None? then None
    else
      var codec := eng.codePage.value;
      var ms := eng.regex.matches(pattern, codec.decode(bytes));
      Some(AsciiEntries(bytes, codec, ms, currentOffset, withOffsets))
  }

  /** Naive forward search for `searchBytes` in `searchIn` from `start`:
      compare the first byte, then the rest, and stop at the first full match. */
  method ByteSearch(searchIn: array<byte>, searchBytes: array<byte>, start: nat) returns (found: int)
    ensures found == SearchFrom(searchIn[..], searchBytes[..], start)
  {
    found := -1;
    ghost var s, p := searchIn[..], searchBytes[..];
    if searchIn.Length > 0 && searchBytes.Length > 0 && start <= searchIn.Length - searchBytes.Length
       && searchIn.Length >= searchBytes.Length
    {
      var i := start;
      while i <= searchIn.Length - searchBytes.Length
        invariant start <= i <= searchIn.Length - searchBytes.Length + 1
        invariant found == -1
        invariant SearchFrom(s, p, i) == SearchFrom(s, p, start)
      {
        if searchIn[i] == searchBytes[0] {
          if searchIn.Length > 1 {
            var matched := true;
            var y := 1;
            while y <= searchBytes.Length - 1
              invariant 1 <= y <= searchBytes.Length
              invariant matched <==> forall z :: 0 <= z < y ==> s[i + z] == p[z]
            {
              if searchIn[i + y] != searchBytes[y] {
                matched := false;
                break;
              }
              y := y + 1;
            }
            assert matched <==> OccursAt(s, p, i);
            if matched {
              found := i;
              break;
            }
          } else {
            assert OccursAt(s, p, i);
            found := i;
            break;
          }
        }
        i := i + 1;
      }
    }
  }

  /** `GetUnicodeHits`: decode the window as UTF-16, match, and format. */
  method GetUnicodeHits(bytes: array<byte>, minSize: int, maxSize: int, currentOffset: int,
                        withOffsets: bool, ur: string, eng: Engines) returns (hits: Option<seq<string>>)
    ensures hits == UnicodeHits(bytes[..], minSize, maxSize, currentOffset, withOffsets, ur, eng)
  {
    var pattern := ur + Quantifier(minSize, maxSize);
    if !eng.regex.accepts(pattern) {
      return None;
    }
    var uniString := eng.unicode(bytes[..]);
    var ms := eng.regex.matches(pattern, uniString);
    var list: seq<string> := [];
    for k := 0 to |ms|
      invariant list == UnicodeEntries(ms[..k], currentOffset, withOffsets)
    {
      var m := ms[k];
      UnicodeEntriesSnoc(ms, k, currentOffset, withOffsets);
      if withOffsets {
        var actualOffset := (currentOffset + m.index) * 2;
        list := list + [Tagged(m.value, actualOffset, UnicodeSuffix)];
      } else {
        list := list + [Trim(m.value)];
      }
    }
    assert ms[..|ms|] == ms;
    return Some(list);
  }

  /** The offset `GetAsciiHits` reports for one match: the match re-encoded
      with the code page, searched for in the window from the match's
      character index, plus the window's offset. */
  method AsciiMatchOffset(bytes: array<byte>, codePage: Codec, currentOffset: int, m: RegexMatch)
    returns (actualOffset: int)
    ensures actualOffset == AsciiOffset(bytes[..], codePage, currentOffset, m)
  {
    var encoded := codePage.encode(m.value);
    var matchBytes := new byte[|encoded|](i requires 0 <= i < |encoded| => encoded[i]);
    assert matchBytes[..] == encoded;
    var pos := ByteSearch(bytes, matchBytes, m.index);
    actualOffset := currentOffset + pos;
  }

  /** `GetAsciiHits`: decode the window with the code page, match, and format;
      with offsets, re-encode each match and search for its bytes in the
      window from the match's character index. */
  method GetAsciiHits(bytes: array<byte>, minSize: int, maxSize: int, currentOffset: int,
                      withOffsets: bool, ar: string, eng: Engines) returns (hits: Option<seq<string>>)
    ensures hits == AsciiHits(bytes[..], minSize, maxSize, currentOffset, withOffsets, ar, eng)
  {
    var pattern := ar + Quantifier(minSize, maxSize);
    if !eng.regex.accepts(pattern) {
      return None;
    }
    if eng.codePage.None? {
      return None;
    }
    var codePage := eng.codePage.value;
    var ascString := codePage.decode(bytes[..]);
    var ms := eng.regex.matches(pattern, ascString);
    var list: seq<string> := [];
    for k := 0 to |ms|
      invariant list == AsciiEntries(bytes[..], codePage, ms[..k], currentOffset, withOffsets)
    {
      var m := ms[k];
      AsciiEntriesSnoc(bytes[..], codePage, ms, k, currentOffset, withOffsets);
      if withOffsets {
        var actualOffset := AsciiMatchOffset(bytes, codePage, currentOffset, m);
        list := list + [Tagged(m.value, actualOffset, AsciiSuffix)];
      } else {
        list := list + [Trim(m.value)];
      }
    }
    assert ms[..|ms|] == ms;
    return Some(list);
  }

  /** A single-byte code page given by its byte-to-character table and the
      reverse mapping used when encoding; decoding maps byte i of the window
      to character i of the text. */
  function SingleByte(toChar: byte -> char, fromChar: char -> byte): (c: Codec)
  {
    Codec(bs => seq(|bs|, i requires 0 <= i < |bs| => toChar(bs[i])),
          t => seq(|t|, i requires 0 <= i < |t| => fromChar(t[i])))
  }

  /** With a single-byte code page whose table round-trips, re-encoding a
      match gives back the very bytes it was decoded from, so the search
      finds them at the match's own index and the reported offset is the
      window start plus that index. */
  lemma {:induction false} AsciiOffsetSingleByte(bytes: seq<byte>, toChar: byte -> char, fromChar: char -> byte,
                                                 currentOffset: int, m: RegexMatch)
    requires forall b: byte :: fromChar(toChar(b)) == b
    requires var text := SingleByte(toChar, fromChar).decode(bytes);
      m.index + |m.value| <= |text| && m.value == text[m.index..m.index + |m.value|]
    requires |m.value| > 0
    ensures AsciiOffset(bytes, SingleByte(toChar, fromChar), currentOffset, m) == currentOffset + m.index
  {
    var codec := SingleByte(toChar, fromChar);
    var text := codec.decode(bytes);
    var enc := codec.encode(m.value);
    assert |text| == |bytes|;
    forall j | 0 <= j < |enc| ensures bytes[m.index + j] == enc[j] {
      assert m.value[j] == text[m.index + j] == toChar(bytes[m.index + j]);
    }
    assert OccursAt(bytes, enc, m.index);
  }

  /** Every hit of a well-formed match list has at most `maxSize` characters
      before its offset field: trimming never lengthens a match. */
  lemma EntryTextWithinMaximum(ms: seq<RegexMatch>, text: string, minSize: int, maxSize: int, k: nat)
    requires WellFormedMatches(ms, text, minSize, maxSize) && k < |ms|
    ensures maxSize != -1 ==> |Trim(ms[k].value)| <= maxSize
    ensures |Trim(ms[k].value)| <= |ms[k].value|
  {
    TrimSpec(ms[k].value);
  }

  /** Trimming can also shorten a match below the minimum length: with the
      default class, which contains the space, the three-character match
      "  a" is reported as "a". */
  lemma TrimmedHitCanBeShorterThanMinimum()
    ensures |"  a"| == 3 && Trim("  a") == "a"
  {
    assert TrimStart("  a") == TrimStart(" a") == TrimStart("a") == "a";
  }
}
