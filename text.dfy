/** The string operations of the .NET base library that the carver and the
    filter use: `String.Trim`, `int.ToString()`, the `X` format of a `long`,
    `Split('\t').Last()`, `String.Length` in UTF-16 code units and a
    case-insensitive `IndexOf`, whose culture-aware comparison is narrowed
    to folding the letters A-Z. */
module Text {

  /** `Char.IsWhiteSpace`: the Unicode separators plus the C0 and C1 controls
      that .NET treats as white space. */
  predicate IsWhiteSpace(c: char)
  {
    var n := c as int;
    (9 <= n <= 13) || n == 0x20 || n == 0x85 || n == 0xA0 || n == 0x1680
    || (0x2000 <= n <= 0x200A) || n == 0x2028 || n == 0x2029 || n == 0x202F
    || n == 0x205F || n == 0x3000
  }

  /** `String.TrimStart()`: drops the leading white space. */
  function TrimStart(s: string): string
  {
    if |s| > 0 && IsWhiteSpace(s[0]) then TrimStart(s[1..]) else s
  }

  /** `TrimStart` keeps a suffix, removes only white space, and stops at the
      first character that is not white space. */
  lemma {:induction false} TrimStartSpec(s: string)
    ensures var r := TrimStart(s);
      && |r| <= |s| && r == s[|s| - |r|..]
      && (forall k :: 0 <= k < |s| - |r| ==> IsWhiteSpace(s[k]))
      && (r == [] || !IsWhiteSpace(r[0]))
  {
    if |s| > 0 && IsWhiteSpace(s[0]) {
      TrimStartSpec(s[1..]);
    }
  }

  /** `String.TrimEnd()`: drops the trailing white space. */
  function TrimEnd(s: string): string
  {
    if |s| > 0 && IsWhiteSpace(s[|s| - 1]) then TrimEnd(s[..|s| - 1]) else s
  }

  /** `TrimEnd` keeps a prefix, removes only white space, and stops at the
      last character that is not white space. */
  lemma {:induction false} TrimEndSpec(s: string)
    ensures var r := TrimEnd(s);
      && |r| <= |s| && r == s[..|r|]
      && (forall k :: |r| <= k < |s| ==> IsWhiteSpace(s[k]))
      && (r == [] || !IsWhiteSpace(r[|r| - 1]))
  {
    if |s| > 0 && IsWhiteSpace(s[|s| - 1]) {
      TrimEndSpec(s[..|s| - 1]);
    }
  }

  /** `String.Trim()`. */
  function Trim(s: string): string
  {
    TrimEnd(TrimStart(s))
  }

  /** `Trim` keeps a contiguous middle part of its input: everything cut off on
      either side is white space, and the part kept neither starts nor ends
      with white space. */
  lemma TrimSpec(s: string)
    ensures var r := Trim(s); var i := |s| - |TrimStart(s)|;
      && 0 <= i && i + |r| <= |s| && r == s[i..i + |r|]
      && (forall k :: 0 <= k < i ==> IsWhiteSpace(s[k]))
      && (forall k :: i + |r| <= k < |s| ==> IsWhiteSpace(s[k]))
      && (r == [] || (!IsWhiteSpace(r[0]) && !IsWhiteSpace(r[|r| - 1])))
  {
    var t := TrimStart(s);
    var r := TrimEnd(t);
    var i := |s| - |t|;
    TrimStartSpec(s);
    TrimEndSpec(t);
    assert t == s[i..];
    assert r == t[..|r|];
    assert r == s[i..i + |r|];
    forall k | i + |r| <= k < |s| ensures IsWhiteSpace(s[k]) {
      assert s[k] == t[k - i];
    }
    if r != [] {
      assert r[0] == t[0];
    }
  }

  /** Trimming twice is trimming once. */
  lemma TrimIdempotent(s: string)
    ensures Trim(Trim(s)) == Trim(s)
  {
    var r := Trim(s);
    TrimSpec(s);
    assert TrimStart(r) == r;
    TrimEndSpec(r);
  }

  /** The upper-case digit character .NET prints for a digit value. */
  function DigitChar(d: nat): (c: char)
    requires d < 16
  {
    if d < 10 then ('0' as int + d) as char else ('A' as int + d - 10) as char
  }

  /** The value of a digit character, or -1 for any other character. */
  function DigitValue(c: char): (v: int)
    ensures -1 <= v < 16
  {
    if '0' <= c <= '9' then c as int - '0' as int
    else if 'A' <= c <= 'F' then c as int - 'A' as int + 10
    else -1
  }

  /** Euclidean division of `n` by a base: quotient smaller than `n`. */
  lemma DivideByBase(n: nat, b: nat)
    requires 2 <= b <= 16 && b <= n
    ensures 0 <= n / b < n && 0 <= n % b < b && n == (n / b) * b + n % b
  {
    var q := n / b;
    assert q * b <= n;
    assert q * 2 <= q * b;
  }

  /** The digits of `n` in base `b`, most significant first, without leading
      zeros (a single "0" for zero). */
  function ToDigits(n: nat, b: nat): (r: string)
    requires 2 <= b <= 16
    ensures |r| >= 1
    ensures forall k :: 0 <= k < |r| ==> 0 <= DigitValue(r[k]) < b
  {
    if n < b then [DigitChar(n)]
    else
      DivideByBase(n, b);
      ToDigits(n / b, b) + [DigitChar(n % b)]
  }

  /** Reads a string of digits in base `b`. */
  function FromDigits(s: string, b: nat): int
    requires 2 <= b <= 16
  {
    if s == [] then 0 else FromDigits(s[..|s| - 1], b) * b + DigitValue(s[|s| - 1])
  }

  /** Reading back what `ToDigits` printed gives the number printed. */
  lemma {:induction false} DigitsRoundTrip(n: nat, b: nat)
    requires 2 <= b <= 16
    ensures FromDigits(ToDigits(n, b), b) == n
    decreases n
  {
    var r := ToDigits(n, b);
    if n >= b {
      DivideByBase(n, b);
      var q, d := n / b, n % b;
      DigitsRoundTrip(q, b);
      assert r[..|r| - 1] == ToDigits(q, b);
      assert DigitValue(r[|r| - 1]) == d;
    }
  }

  /** `int.ToString()` (invariant culture). */
  function Decimal(n: int): (r: string)
    ensures |r| >= 1
  {
    if n < 0 then "-" + ToDigits(-n, 10) else ToDigits(n, 10)
  }

  /** Reads what `Decimal` prints: an optional minus sign, then digits. */
  function ParseDecimal(s: string): int
  {
    if |s| > 0 && s[0] == '-' then -FromDigits(s[1..], 10) else FromDigits(s, 10)
  }

  lemma DecimalRoundTrip(n: int)
    ensures ParseDecimal(Decimal(n)) == n
  {
    var s := Decimal(n);
    if n < 0 {
      var d := ToDigits(-n, 10);
      assert s == "-" + d && s[1..] == d;
      assert ParseDecimal(s) == -FromDigits(d, 10);
      DigitsRoundTrip(-n, 10);
    } else {
      var d := ToDigits(n, 10);
      assert s == d;
      assert DigitValue('-') == -1 && 0 <= DigitValue(d[0]);
      assert ParseDecimal(s) == FromDigits(d, 10);
      DigitsRoundTrip(n, 10);
    }
  }

  /** 2^64: a `long` is printed through its 64-bit two's complement pattern. */
  const TwoTo64: int := 0x1_0000_0000_0000_0000

  /** The `X` format of a `long`: upper-case hexadecimal of its 64-bit two's
      complement pattern, so -1 prints as sixteen 'F's. */
  function HexLong(v: int): (r: string)
  {
    ToDigits(v % TwoTo64, 16)
  }

  /** Reading the hexadecimal back yields the value modulo 2^64: the value
      itself when it is a non-negative `long`. */
  lemma HexLongRoundTrip(v: int)
    ensures FromDigits(HexLong(v), 16) == v % TwoTo64
    ensures 0 <= v < TwoTo64 ==> FromDigits(HexLong(v), 16) == v
  {
    DigitsRoundTrip(v % TwoTo64, 16);
  }

  /** `s.Split('\t').Last()`: the text after the last tab, or all of `s` when
      it holds no tab. */
  function LastField(s: string): (r: string)
    ensures |r| <= |s| && r == s[|s| - |r|..]
    ensures '\t' !in r
    ensures |r| < |s| ==> s[|s| - |r| - 1] == '\t'
  {
    if s == [] then []
    else if s[|s| - 1] == '\t' then []
    else LastField(s[..|s| - 1]) + [s[|s| - 1]]
  }

  /** Whatever precedes the last tab, the last field is what follows it. */
  lemma {:induction false} LastFieldAfterTab(a: string, b: string)
    requires '\t' !in b
    ensures LastField(a + "\t" + b) == b
    decreases |b|
  {
    var s := a + "\t" + b;
    if b == [] {
    } else {
      LastFieldAfterTab(a, b[..|b| - 1]);
      assert s[..|s| - 1] == a + "\t" + b[..|b| - 1];
      assert b == b[..|b| - 1] + [b[|b| - 1]];
    }
  }

  /** `String.Length`: a .NET string is a sequence of UTF-16 code units, so a
      character beyond U+FFFF (a surrogate pair) counts twice. */
  function Utf16Length(s: string): (n: nat)
    ensures |s| <= n <= 2 * |s|
    ensures n == |s| <==> forall i :: 0 <= i < |s| ==> s[i] as int < 0x10000
  {
    if s == [] then 0
    else (if s[0] as int < 0x10000 then 1 else 2) + Utf16Length(s[1..])
  }

  /** Case folding of `InvariantCultureIgnoreCase` comparisons, narrowed to
      the Latin letters A-Z: other case pairs (such as É and é) and the
      characters the invariant culture ignores (such as U+00AD) compare as
      they are. */
  function FoldChar(c: char): (r: char)
  {
    if 'A' <= c <= 'Z' then (c as int + 32) as char else c
  }

  /** `p` occurs in `s` at `i`, ignoring case. */
  predicate OccursIgnoreCaseAt(s: string, p: string, i: int)
  {
    0 <= i && |p| <= |s| - i && forall j :: 0 <= j < |p| ==> FoldChar(s[i + j]) == FoldChar(p[j])
  }

  /** `s.IndexOf(p, StringComparison.InvariantCultureIgnoreCase)`, searching
      from `from`: the least index at which `p` occurs ignoring the case of
      A-Z, or -1. */
  function IndexOfIgnoreCase(s: string, p: string, from: nat): int
    decreases |s| - from
  {
    if from + |p| > |s| then -1
    else if OccursIgnoreCaseAt(s, p, from) then from
    else IndexOfIgnoreCase(s, p, from + 1)
  }

  /** The search answers the first index at or after `from` where `p`
      occurs ignoring case, and -1 exactly when it occurs nowhere there. */
  lemma {:induction false} IndexOfIgnoreCaseSpec(s: string, p: string, from: nat)
    ensures var r := IndexOfIgnoreCase(s, p, from);
      && (r == -1 || (from <= r && OccursIgnoreCaseAt(s, p, r)))
      && (r >= 0 ==> forall i :: from <= i < r ==> !OccursIgnoreCaseAt(s, p, i))
      && (r == -1 <==> forall i :: from <= i ==> !OccursIgnoreCaseAt(s, p, i))
    decreases |s| - from
  {
    if from + |p| <= |s| && !OccursIgnoreCaseAt(s, p, from) {
      IndexOfIgnoreCaseSpec(s, p, from + 1);
    }
  }
}
