/** The set of hits of one file (`HashSet<string>` in bstrings/Program.cs).
    A set that is only ever added to enumerates its elements in insertion
    order, so it is modelled as the list of distinct strings in the order
    they were first added. */
module Collector {

  /** No string appears twice. */
  predicate Distinct(s: seq<string>)
  {
    forall i, j :: 0 <= i < j < |s| ==> s[i] != s[j]
  }

  /** `HashSet.Add`: appends `h` unless it is already present. */
  function Insert(s: seq<string>, h: string): seq<string>
  {
    if h in s then s else s + [h]
  }

  /** Adding one string keeps the set duplicate-free, only grows it, adds
      exactly that string, and leaves it unchanged when the string is present. */
  lemma InsertSpec(s: seq<string>, h: string)
    requires Distinct(s)
    ensures var r := Insert(s, h);
      && Distinct(r)
      && s <= r
      && (forall x :: x in r <==> x in s || x == h)
      && (h in s ==> r == s)
  {
  }

  /** Adding the strings of `hs` one after the other. */
  function InsertAll(s: seq<string>, hs: seq<string>): seq<string>
    decreases |hs|
  {
    if hs == [] then s else InsertAll(Insert(s, hs[0]), hs[1..])
  }

  /** Adding a list keeps the set duplicate-free, only grows it, and leaves
      it holding exactly the strings it held plus those of the list. */
  lemma {:induction false} InsertAllSpec(s: seq<string>, hs: seq<string>)
    requires Distinct(s)
    ensures var r := InsertAll(s, hs);
      && Distinct(r)
      && s <= r
      && (forall x :: x in r <==> x in s || x in hs)
    decreases |hs|
  {
    if hs != [] {
      InsertSpec(s, hs[0]);
      InsertAllSpec(Insert(s, hs[0]), hs[1..]);
      assert hs == [hs[0]] + hs[1..];
    }
  }

  /** Adding strings that are all present already changes nothing. */
  lemma {:induction false} InsertAllPresent(s: seq<string>, hs: seq<string>)
    requires forall x :: x in hs ==> x in s
    ensures InsertAll(s, hs) == s
    decreases |hs|
  {
    if hs != [] {
      assert hs[0] in hs;
      InsertAllPresent(s, hs[1..]);
    }
  }

  /** Adding the same list twice is adding it once. */
  lemma InsertAllIdempotent(s: seq<string>, hs: seq<string>)
    requires Distinct(s)
    ensures InsertAll(InsertAll(s, hs), hs) == InsertAll(s, hs)
  {
    InsertAllSpec(s, hs);
    InsertAllPresent(InsertAll(s, hs), hs);
  }

  /** Adding two lists in turn is adding their concatenation. */
  lemma {:induction false} InsertAllAppend(s: seq<string>, a: seq<string>, b: seq<string>)
    ensures InsertAll(InsertAll(s, a), b) == InsertAll(s, a + b)
    decreases |a|
  {
    if a != [] {
      assert (a + b)[0] == a[0] && (a + b)[1..] == a[1..] + b;
      InsertAllAppend(Insert(s, a[0]), a[1..], b);
    } else {
      assert a + b == b;
    }
  }

  /** `new HashSet<string>(list)` of a list without duplicates keeps the list
      as it is, order included. */
  lemma {:induction false} InsertAllDistinct(s: seq<string>, hs: seq<string>)
    requires Distinct(s + hs)
    ensures InsertAll(s, hs) == s + hs
    decreases |hs|
  {
    if hs != [] {
      assert hs[0] !in s by {
        assert (s + hs)[|s|] == hs[0];
        forall i | 0 <= i < |s| ensures s[i] != hs[0] {
          assert (s + hs)[i] == s[i];
        }
      }
      assert s + hs == (s + [hs[0]]) + hs[1..];
      InsertAllDistinct(s + [hs[0]], hs[1..]);
    }
  }

  /** Each string of `hs` with `prefix` in front: the two spaces that mark a
      hit found across a chunk boundary. */
  function Prefixed(prefix: string, hs: seq<string>): (r: seq<string>)
    ensures |r| == |hs|
  {
    if hs == [] then [] else [prefix + hs[0]] + Prefixed(prefix, hs[1..])
  }

  /** The k-th prefixed string is the k-th string with the prefix in front. */
  lemma {:induction false} PrefixedAt(prefix: string, hs: seq<string>, k: int)
    requires 0 <= k < |hs|
    ensures Prefixed(prefix, hs)[k] == prefix + hs[k]
  {
    if k > 0 {
      PrefixedAt(prefix, hs[1..], k - 1);
    }
  }

  /** With an empty prefix the strings are added as they are. */
  lemma {:induction false} PrefixedEmpty(hs: seq<string>)
    ensures Prefixed("", hs) == hs
  {
    if hs != [] {
      PrefixedEmpty(hs[1..]);
      assert "" + hs[0] == hs[0];
      assert hs == [hs[0]] + hs[1..];
    }
  }

  /** Prefixing distributes over concatenation. */
  lemma {:induction false} PrefixedAppend(prefix: string, a: seq<string>, b: seq<string>)
    ensures Prefixed(prefix, a + b) == Prefixed(prefix, a) + Prefixed(prefix, b)
  {
    if a == [] {
      assert a + b == b;
    } else {
      assert (a + b)[0] == a[0] && (a + b)[1..] == a[1..] + b;
      PrefixedAppend(prefix, a[1..], b);
    }
  }

  /** Adding two prefixed lists in turn is adding their prefixed
      concatenation. */
  lemma InsertAllPrefixedAppend(s: seq<string>, prefix: string, a: seq<string>, b: seq<string>)
    ensures InsertAll(InsertAll(s, Prefixed(prefix, a)), Prefixed(prefix, b)) == InsertAll(s, Prefixed(prefix, a + b))
  {
    PrefixedAppend(prefix, a, b);
    InsertAllAppend(s, Prefixed(prefix, a), Prefixed(prefix, b));
  }
}
