/** The `ByteArray` extension class: `Locate` lists every index at which a
    candidate byte pattern occurs in a byte array, overlapping occurrences
    included. */
module ByteArray {
  import opened Bytes

  /** The inputs for which `Locate` answers the empty array at once: a null
      or empty array on either side, or a candidate longer than the array. */
  predicate IsEmptyLocate(bytes: array?<byte>, candidate: array?<byte>)
  {
    bytes == null || candidate == null || bytes.Length == 0 || candidate.Length == 0
    || candidate.Length > bytes.Length
  }

  /** Whether `candidate` occurs in `bytes` at `position`: false when it does
      not fit in what is left after `position`, otherwise a byte-by-byte
      comparison that stops at the first difference. */
  method IsMatch(bytes: array<byte>, position: int, candidate: array<byte>) returns (r: bool)
    requires 0 <= position
    ensures r <==> OccursAt(bytes[..], candidate[..], position)
  {
    if candidate.Length > bytes.Length - position {
      return false;
    }
    for i := 0 to candidate.Length
      invariant forall j :: 0 <= j < i ==> bytes[position + j] == candidate[j]
    {
      if bytes[position + i] != candidate[i] {
        return false;
      }
    }
    return true;
  }

  /** All indices of `candidate` in `self`, in increasing order, or the empty
      array when `IsEmptyLocate` holds. */
  method Locate(self: array?<byte>, candidate: array?<byte>) returns (r: seq<int>)
    ensures IsEmptyLocate(self, candidate) ==> r == []
    ensures !IsEmptyLocate(self, candidate) ==> r == Occurrences(self[..], candidate[..])
  {
    if IsEmptyLocate(self, candidate) {
      return [];
    }
    ghost var s, p := self[..], candidate[..];
    var list: seq<int> := [];
    for i := 0 to self.Length
      invariant list + OccurrencesFrom(s, p, i) == Occurrences(s, p)
    {
      assert OccurrencesFrom(s, p, i) == (if OccursAt(s, p, i) then [i] else []) + OccurrencesFrom(s, p, i + 1);
      var matched := IsMatch(self, i, candidate);
      if !matched {
        continue;
      }
      assert (list + [i]) + OccurrencesFrom(s, p, i + 1) == list + OccurrencesFrom(s, p, i);
      list := list + [i];
    }
    assert OccurrencesFrom(s, p, self.Length) == [];
    return list;
  }

  /** What `Locate` answers, stated outright: the empty array on the
      degenerate inputs, otherwise exactly the indices where `candidate`
      occurs inside `self`, overlapping ones included, strictly increasing,
      and at most one per index that leaves room for the candidate. */
  lemma LocateResult(self: array?<byte>, candidate: array?<byte>, r: seq<int>)
    requires IsEmptyLocate(self, candidate) ==> r == []
    requires !IsEmptyLocate(self, candidate) ==> r == Occurrences(self[..], candidate[..])
    ensures self == null || candidate == null || candidate.Length == 0 ==> r == []
    ensures self != null && candidate != null ==>
      (forall k :: 0 <= k < |r| ==> OccursAt(self[..], candidate[..], r[k]))
    ensures self != null && candidate != null && candidate.Length > 0 ==>
      (forall i :: OccursAt(self[..], candidate[..], i) ==> i in r)
    ensures forall k, l :: 0 <= k < l < |r| ==> r[k] < r[l]
    ensures self != null && candidate != null ==>
      |r| <= if self.Length - candidate.Length + 1 > 0 then self.Length - candidate.Length + 1 else 0
  {
    if !IsEmptyLocate(self, candidate) {
      var s, p := self[..], candidate[..];
      OccurrencesFromSpec(s, p, 0);
      forall i | OccursAt(s, p, i) ensures i in r {
        assert i < |s|;
      }
    }
  }

  /** The byte array and the pattern of the example kept in the source's
      comments. */
  const ExampleData: seq<byte> := [23, 36, 43, 76, 125, 56, 34, 234, 12, 3, 5, 76, 8, 0, 6, 125, 234,
                                    56, 211, 122, 22, 4, 7, 89, 76, 64, 12, 3, 5, 76, 8, 0, 6, 125]
  const ExamplePattern: seq<byte> := [12, 3, 5, 76, 8, 0, 6, 125]

  /** The pattern's first byte, 12, appears in the example only at 8 and 26. */
  lemma ExampleFirstByteOnlyAt8And26(i: int)
    requires 0 <= i < |ExampleData| && ExampleData[i] == ExamplePattern[0]
    ensures i == 8 || i == 26
  {
  }

  /** In the example the pattern occurs at indices 8 and 26 and nowhere else. */
  lemma ExampleOccursOnlyAt8And26()
    ensures forall i :: OccursAt(ExampleData, ExamplePattern, i) <==> i == 8 || i == 26
  {
    forall i | OccursAt(ExampleData, ExamplePattern, i) ensures i == 8 || i == 26 {
      assert ExampleData[i + 0] == ExamplePattern[0];
      ExampleFirstByteOnlyAt8And26(i);
    }
    ExampleOccursAt(8);
    ExampleOccursAt(26);
  }

  /** The pattern does occur at 8 and at 26. */
  lemma ExampleOccursAt(i: int)
    requires i == 8 || i == 26
    ensures OccursAt(ExampleData, ExamplePattern, i)
  {
    forall j | 0 <= j < 8 ensures ExampleData[i + j] == ExamplePattern[j] {
      if i == 8 {
        assert ExampleData[8 + j] == ExampleData[8..16][j];
      } else {
        assert ExampleData[26 + j] == ExampleData[26..34][j];
      }
    }
  }

  /** The scan passes over a stretch without occurrences unchanged. */
  lemma {:induction false} SkipNoOccurrence(s: seq<byte>, p: seq<byte>, from: nat, to: nat)
    requires from <= to <= |s|
    requires forall i :: from <= i < to ==> !OccursAt(s, p, i)
    ensures OccurrencesFrom(s, p, from) == OccurrencesFrom(s, p, to)
    decreases |s| - from
  {
    if from < to {
      SkipNoOccurrence(s, p, from + 1, to);
    }
  }

  /** A pattern that occurs at exactly two indices is located at exactly
      those two, in order. */
  lemma OccurrencesOfTwo(s: seq<byte>, p: seq<byte>, a: int, b: int)
    requires 0 <= a < b < |s|
    requires forall i :: OccursAt(s, p, i) <==> i == a || i == b
    ensures Occurrences(s, p) == [a, b]
  {
    SkipNoOccurrence(s, p, 0, a);
    SkipNoOccurrence(s, p, a + 1, b);
    SkipNoOccurrence(s, p, b + 1, |s|);
  }

  /** Hence `Locate` answers exactly [8, 26] on the example. */
  lemma ExampleOccurrences()
    ensures Occurrences(ExampleData, ExamplePattern) == [8, 26]
  {
    ExampleOccursOnlyAt8And26();
    OccurrencesOfTwo(ExampleData, ExamplePattern, 8, 26);
  }

  /** The example run through `Locate` itself. */
  method LocateDocumentedExample() returns (positions: seq<int>)
    ensures positions == [8, 26]
  {
    var data := new byte[|ExampleData|](i requires 0 <= i < |ExampleData| => ExampleData[i]);
    var pattern := new byte[|ExamplePattern|](i requires 0 <= i < |ExamplePattern| => ExamplePattern[i]);
    assert data[..] == ExampleData && pattern[..] == ExamplePattern;
    positions := Locate(data, pattern);
    ExampleOccurrences();
  }
}
