/** Ordering the hit set of a file before it is filtered (`DoWork` and
    `SortByLength` in bstrings/Program.cs): alphabetically with `--sa`, by
    length with `--sl`, and the sorted list made into a hit set again. */
module Sorting {
  import opened Collector
  import opened Text

  /** A comparison of strings: `le(a, b)` when `a` may come before `b`. */
  type Order = (string, string) -> bool

  /** Any two strings are comparable one way or the other, as under the
      default string comparer. */
  ghost predicate Total(le: Order)
  {
    forall a, b :: le(a, b) || le(b, a)
  }

  /** Each string may come before the next. */
  predicate Sorted(s: seq<string>, le: Order)
  {
    forall i :: 0 <= i < |s| - 1 ==> le(s[i], s[i + 1])
  }

  /** The tail of a sorted list is sorted. */
  lemma SortedTail(t: seq<string>, le: Order)
    requires Sorted(t, le) && t != []
    ensures Sorted(t[1..], le)
  {
    forall i | 0 <= i < |t[1..]| - 1 ensures le(t[1..][i], t[1..][i + 1]) {
      assert t[1..][i] == t[i + 1] && t[1..][i + 1] == t[i + 2];
    }
  }

  /** `x` placed in front of the first string of `t` it may come before. */
  function InsertSorted(x: string, t: seq<string>, le: Order): (r: seq<string>)
    ensures multiset(r) == multiset(t) + multiset{x}
  {
    if t == [] || le(x, t[0]) then [x] + t
    else
      assert t == [t[0]] + t[1..];
      [t[0]] + InsertSorted(x, t[1..], le)
  }

  /** Insertion sort: each string placed into the sorted rest of the list,
      in front of the strings it ties with, so ties keep their order. */
  function SortBy(s: seq<string>, le: Order): (r: seq<string>)
    ensures multiset(r) == multiset(s)
  {
    if s == [] then []
    else
      assert s == [s[0]] + s[1..];
      InsertSorted(s[0], SortBy(s[1..], le), le)
  }

  /** Placing a string into a sorted list keeps it sorted. */
  lemma {:induction false} InsertSortedSorted(x: string, t: seq<string>, le: Order)
    requires Total(le) && Sorted(t, le)
    ensures Sorted(InsertSorted(x, t, le), le)
  {
    if t != [] && !le(x, t[0]) {
      var rest := InsertSorted(x, t[1..], le);
      SortedTail(t, le);
      InsertSortedSorted(x, t[1..], le);
      assert le(t[0], x);
      assert le(t[0], rest[0]) by {
        if |t| > 1 && !le(x, t[1]) {
          assert rest[0] == t[1];
        }
      }
    }
  }

  /** The sorted list is sorted. */
  lemma {:induction false} SortBySorted(s: seq<string>, le: Order)
    requires Total(le)
    ensures Sorted(SortBy(s, le), le)
  {
    if s != [] {
      SortBySorted(s[1..], le);
      InsertSortedSorted(s[0], SortBy(s[1..], le), le);
    }
  }

  /** A list of distinct strings is a string not in a list of distinct strings,
      followed by that list. */
  lemma DistinctCons(h: string, t: seq<string>)
    ensures Distinct([h] + t) <==> h !in t && Distinct(t)
  {
    var s := [h] + t;
    if h !in t && Distinct(t) {
      forall i, j | 0 <= i < j < |s| ensures s[i] != s[j] {
        assert s[j] == t[j - 1];
        if i > 0 {
          assert s[i] == t[i - 1];
        }
      }
    }
    if Distinct(s) {
      forall i, j | 0 <= i < j < |t| ensures t[i] != t[j] {
        assert t[i] == s[i + 1] && t[j] == s[j + 1];
      }
      forall i | 0 <= i < |t| ensures t[i] != h {
        assert s[0] == h && s[i + 1] == t[i];
      }
    }
  }

  /** Sorting distinct strings keeps them distinct. */
  lemma {:induction false} SortByDistinct(s: seq<string>, le: Order)
    requires Distinct(s)
    ensures Distinct(SortBy(s, le))
  {
    if s != [] {
      DistinctCons(s[0], s[1..]);
      assert s == [s[0]] + s[1..];
      SortByDistinct(s[1..], le);
      var t := SortBy(s[1..], le);
      assert s[0] !in multiset(t);
      InsertSortedDistinct(s[0], t, le);
    }
  }

  /** Placing a new string into a list of distinct strings keeps them distinct. */
  lemma {:induction false} InsertSortedDistinct(x: string, t: seq<string>, le: Order)
    requires Distinct(t) && x !in t
    ensures Distinct(InsertSorted(x, t, le))
  {
    if t == [] || le(x, t[0]) {
      DistinctCons(x, t);
    } else {
      assert t == [t[0]] + t[1..];
      DistinctCons(t[0], t[1..]);
      InsertSortedDistinct(x, t[1..], le);
      var rest := InsertSorted(x, t[1..], le);
      assert t[0] !in multiset(rest);
      DistinctCons(t[0], rest);
    }
  }

  /** The order `SortByLength` sorts by: the string with fewer UTF-16 code
      units (`s.Length`) first. */
  function ShorterOrEqual(a: string, b: string): bool
  {
    Utf16Length(a) <= Utf16Length(b)
  }

  /** `SortByLength`: LINQ's `orderby s.Length ascending`, a stable sort by
      length. */
  function SortByLength(hs: seq<string>): seq<string>
  {
    SortBy(hs, ShorterOrEqual)
  }

  /** The strings of `s` of `Length` `n`, in order. */
  function WithLength(s: seq<string>, n: nat): seq<string>
  {
    if s == [] then [] else (if Utf16Length(s[0]) == n then [s[0]] else []) + WithLength(s[1..], n)
  }

  /** Placing a string into a list sorted by length puts it first among the
      strings of its length. */
  lemma {:induction false} InsertSortedWithLength(x: string, t: seq<string>, n: nat)
    requires Sorted(t, ShorterOrEqual)
    ensures WithLength(InsertSorted(x, t, ShorterOrEqual), n) == (if Utf16Length(x) == n then [x] else []) + WithLength(t, n)
  {
    var r := InsertSorted(x, t, ShorterOrEqual);
    if t == [] || ShorterOrEqual(x, t[0]) {
      assert r[0] == x && r[1..] == t;
    } else {
      var rest := InsertSorted(x, t[1..], ShorterOrEqual);
      SortedTail(t, ShorterOrEqual);
      InsertSortedWithLength(x, t[1..], n);
      assert r[0] == t[0] && r[1..] == rest;
      assert Utf16Length(x) > Utf16Length(t[0]);
      var head := if Utf16Length(t[0]) == n then [t[0]] else [];
      var mid := if Utf16Length(x) == n then [x] else [];
      assert head + mid == mid + head;
      assert WithLength(r, n) == head + (mid + WithLength(t[1..], n));
      assert WithLength(t, n) == head + WithLength(t[1..], n);
    }
  }

  /** `SortByLength` is stable: the strings of each length keep their order. */
  lemma {:induction false} SortByLengthStable(hs: seq<string>, n: nat)
    ensures WithLength(SortByLength(hs), n) == WithLength(hs, n)
  {
    if hs != [] {
      SortBySorted(hs[1..], ShorterOrEqual);
      SortByLengthStable(hs[1..], n);
      InsertSortedWithLength(hs[0], SortByLength(hs[1..]), n);
    }
  }

  /** In a list sorted by length, no string is longer than a later one. */
  lemma {:induction false} SortedByLengthPairwise(s: seq<string>, i: int, j: int)
    requires Sorted(s, ShorterOrEqual) && 0 <= i <= j < |s|
    ensures Utf16Length(s[i]) <= Utf16Length(s[j])
    decreases j - i
  {
    if i < j {
      SortedByLengthPairwise(s, i + 1, j);
      assert ShorterOrEqual(s[i], s[i + 1]);
    }
  }

  /** `SortByLength` returns its input reordered so that lengths never
      decrease, strings of equal length in their input order. */
  lemma SortByLengthSpec(hs: seq<string>)
    ensures var r := SortByLength(hs);
      && multiset(r) == multiset(hs)
      && (forall i, j :: 0 <= i <= j < |r| ==> Utf16Length(r[i]) <= Utf16Length(r[j]))
      && (forall n: nat :: WithLength(r, n) == WithLength(hs, n))
  {
    var r := SortByLength(hs);
    SortBySorted(hs, ShorterOrEqual);
    forall i, j | 0 <= i <= j < |r| ensures Utf16Length(r[i]) <= Utf16Length(r[j]) {
      SortedByLengthPairwise(r, i, j);
    }
    forall n: nat ensures WithLength(r, n) == WithLength(hs, n) {
      SortByLengthStable(hs, n);
    }
  }

  /** Lengths are counted in UTF-16 code units: a hit holding a character
      beyond U+FFFF is longer than its number of characters, so "\U{1F600}a"
      (three code units) sorts after "ab" (two), although both have two
      characters. */
  lemma SortByLengthCountsCodeUnits()
    ensures Utf16Length("\U{1F600}a") == 3 && Utf16Length("ab") == 2
    ensures SortByLength(["\U{1F600}a", "ab"]) == ["ab", "\U{1F600}a"]
  {
    var e, a := "\U{1F600}a", "ab";
    assert Utf16Length(e) == 2 + Utf16Length(e[1..]) && e[1..] == "a";
    assert Utf16Length(a) == 1 + Utf16Length(a[1..]) && a[1..] == "b";
    assert [e, a][1..] == [a];
    assert SortBy([a], ShorterOrEqual) == [a];
  }

  /** The hit set after the optional sort: `--sa` sorts alphabetically by
      the default comparer `alphabetical` and takes precedence; otherwise `--sl`
      sorts by length; either way the sorted list becomes a new hit set. */
  function SortHits(hits: seq<string>, sa: bool, sl: bool, alphabetical: Order): seq<string>
  {
    if sa then InsertAll([], SortBy(hits, alphabetical))
    else if sl then InsertAll([], SortByLength(hits))
    else hits
  }

  /** Sorting keeps the hits, each once, and leaves them in the order asked
      for: the comparer's with `--sa`, by length with `--sl` alone, as found
      otherwise. */
  lemma SortHitsSpec(hits: seq<string>, sa: bool, sl: bool, alphabetical: Order)
    requires Distinct(hits) && Total(alphabetical)
    ensures var r := SortHits(hits, sa, sl, alphabetical);
      && Distinct(r) && multiset(r) == multiset(hits)
      && (sa ==> Sorted(r, alphabetical))
      && (!sa && sl ==> forall i, j :: 0 <= i <= j < |r| ==> Utf16Length(r[i]) <= Utf16Length(r[j]))
      && (!sa && !sl ==> r == hits)
  {
    if sa {
      SortedHitSet(hits, alphabetical);
      SortBySorted(hits, alphabetical);
    } else if sl {
      SortedHitSet(hits, ShorterOrEqual);
      var r := SortByLength(hits);
      SortBySorted(hits, ShorterOrEqual);
      forall i, j | 0 <= i <= j < |r| ensures Utf16Length(r[i]) <= Utf16Length(r[j]) {
        SortedByLengthPairwise(r, i, j);
      }
    }
  }

  /** The sorted list of distinct hits made into a hit set is that list. */
  lemma SortedHitSet(hits: seq<string>, le: Order)
    requires Distinct(hits)
    ensures Distinct(SortBy(hits, le)) && InsertAll([], SortBy(hits, le)) == SortBy(hits, le)
  {
    var sorted := SortBy(hits, le);
    SortByDistinct(hits, le);
    assert [] + sorted == sorted;
    InsertAllDistinct([], sorted);
  }
}
