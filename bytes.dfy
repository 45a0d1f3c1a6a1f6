/** Byte sequences and the two pattern searches the carver relies on:
    the first occurrence at or after a start index (`ByteSearch` in
    bstrings/Program.cs) and all occurrences (`ByteArray.Locate`). */
module Bytes {

  /** A .NET `byte`. */
  type byte = b: int | 0 <= b < 256

  /** `p` occurs in `s` at index `i`: it fits there and every byte agrees. */
  predicate OccursAt(s: seq<byte>, p: seq<byte>, i: int)
  {
    0 <= i && |p| <= |s| - i && forall j :: 0 <= j < |p| ==> s[i + j] == p[j]
  }

  /** A buffer of `n` zero bytes, what `new byte[n]` holds. */
  function Zeros(n: nat): (r: seq<byte>)
    ensures |r| == n && forall i :: 0 <= i < n ==> r[i] == 0
  {
    seq(n, _ => 0)
  }

  /** The index `ByteSearch(s, p, start)` returns: the least index at or after
      `start` where `p` occurs, or -1 when there is none, when either input is
      empty, or when `start` leaves no room for `p`. */
  function SearchFrom(s: seq<byte>, p: seq<byte>, start: nat): (r: int)
    decreases |s| - start
    ensures r == -1 || (start <= r && OccursAt(s, p, r))
    ensures r >= 0 ==> forall i :: start <= i < r ==> !OccursAt(s, p, i)
    ensures r == -1 <==> (|s| == 0 || |p| == 0 || forall i :: start <= i ==> !OccursAt(s, p, i))
  {
    if |s| == 0 || |p| == 0 || start + |p| > |s| then -1
    else if OccursAt(s, p, start) then start
    else SearchFrom(s, p, start + 1)
  }

  /** The indices in `[from, |s|)` at which `p` occurs, in increasing order. */
  function OccurrencesFrom(s: seq<byte>, p: seq<byte>, from: nat): (r: seq<int>)
    decreases |s| - from
  {
    if from >= |s| then []
    else (if OccursAt(s, p, from) then [from] else []) + OccurrencesFrom(s, p, from + 1)
  }

  /** The scan is sound and complete, lists each index once in increasing
      order, and lists at most one index per position that leaves room for
      `p`. */
  lemma {:induction false} OccurrencesFromSpec(s: seq<byte>, p: seq<byte>, from: nat)
    decreases |s| - from
    ensures var r := OccurrencesFrom(s, p, from);
      && (forall k :: 0 <= k < |r| ==> from <= r[k] < |s| && OccursAt(s, p, r[k]))
      && (forall i :: from <= i < |s| && OccursAt(s, p, i) ==> i in r)
      && (forall k, l :: 0 <= k < l < |r| ==> r[k] < r[l])
      && (|p| > 0 ==> |r| <= if |s| - |p| + 1 - from > 0 then |s| - |p| + 1 - from else 0)
  {
    if from < |s| {
      OccurrencesFromSpec(s, p, from + 1);
    }
  }

  /** Every index at which `p` occurs in `s`. */
  function Occurrences(s: seq<byte>, p: seq<byte>): (r: seq<int>)
  {
    OccurrencesFrom(s, p, 0)
  }

  /** `ByteSearch` and `Locate` agree: the first-occurrence search from
      `start` yields the first occurrence that `Locate` lists at or after
      `start`, and -1 exactly when it lists none there. */
  lemma {:induction false} SearchFromIsFirstOccurrence(s: seq<byte>, p: seq<byte>, start: nat)
    requires |p| > 0 && start <= |s|
    ensures var occ := OccurrencesFrom(s, p, start);
      SearchFrom(s, p, start) == if occ == [] then -1 else occ[0]
    decreases |s| - start
  {
    var occ := OccurrencesFrom(s, p, start);
    OccurrencesFromSpec(s, p, start);
    if start == |s| {
    } else if OccursAt(s, p, start) {
      assert occ[0] == start;
    } else if start + |p| > |s| {
      assert |occ| == 0;
    } else {
      SearchFromIsFirstOccurrence(s, p, start + 1);
      assert occ == OccurrencesFrom(s, p, start + 1);
    }
  }
}
