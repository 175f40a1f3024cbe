/** `sort.Strings`: a list of strings put into ascending Go string order.
    The functional `SortStrings` is the specification; `SortInPlace` is the
    in-place sort the checker runs on its slice. */
module Sorting {
  import opened GoStrings

  /** Ascending in Go string order (duplicates allowed). */
  predicate Sorted(s: seq<GoString>)
  {
    forall i, j :: 0 <= i < j < |s| ==> LessEq(s[i], s[j])
  }

  /** The first element of a sorted list is `<=` everything in it. */
  lemma SortedHeadIsLeast(s: seq<GoString>, x: GoString)
    requires Sorted(s) && x in multiset(s)
    ensures |s| > 0 && LessEq(s[0], x)
  {
    var k :| 0 <= k < |s| && s[k] == x;
    if k == 0 {
      LessIrreflexive(x);
    }
  }

  /** A sorted permutation is unique: two sorted lists holding the same
      multiset of strings are the same list. */
  lemma {:induction false} SortedUnique(a: seq<GoString>, b: seq<GoString>)
    requires Sorted(a) && Sorted(b) && multiset(a) == multiset(b)
    ensures a == b
  {
    if a != [] {
      assert a[0] in multiset(a);
      SortedHeadIsLeast(b, a[0]);
      assert b[0] in multiset(b);
      SortedHeadIsLeast(a, b[0]);
      LessEqAntisymmetric(a[0], b[0]);
      assert a == [a[0]] + a[1..] && b == [b[0]] + b[1..];
      assert multiset(a[1..]) == multiset(a) - multiset{a[0]};
      assert multiset(b[1..]) == multiset(b) - multiset{b[0]};
      SortedUnique(a[1..], b[1..]);
    } else {
      assert |multiset(b)| == 0;
    }
  }

  /** `x` placed into a sorted list in front of the first element it is `<=`. */
  function Insert(x: GoString, s: seq<GoString>): (r: seq<GoString>)
    requires Sorted(s)
    ensures Sorted(r)
    ensures multiset(r) == multiset(s) + multiset{x}
  {
    if s == [] then [x]
    else if LessEq(x, s[0]) then
      assert forall j :: 0 < j < |s| ==> LessEq(x, s[j]) by {
        forall j | 0 < j < |s| ensures LessEq(x, s[j]) {
          LessEqTransitive(x, s[0], s[j]);
        }
      }
      [x] + s
    else
      var rest := Insert(x, s[1..]);
      assert s == [s[0]] + s[1..];
      LessTrichotomy(x, s[0]);
      assert LessEq(s[0], x) by { LessAsymmetric(s[0], x); }
      assert forall j :: 0 <= j < |rest| ==> LessEq(s[0], rest[j]) by {
        forall j | 0 <= j < |rest| ensures LessEq(s[0], rest[j]) {
          assert rest[j] in multiset(rest);
          if rest[j] != x {
            assert rest[j] in multiset(s[1..]);
            var k :| 0 <= k < |s[1..]| && s[1..][k] == rest[j];
            assert s[k + 1] == rest[j];
          }
        }
      }
      [s[0]] + rest
  }

  /** The reference sort: the input in ascending Go string order. */
  function SortStrings(s: seq<GoString>): (r: seq<GoString>)
    ensures Sorted(r)
    ensures multiset(r) == multiset(s)
  {
    if s == [] then []
    else
      assert s == [s[0]] + s[1..];
      Insert(s[0], SortStrings(s[1..]))
  }

  lemma {:induction false} SumLengthsInsert(x: GoString, s: seq<GoString>)
    requires Sorted(s)
    ensures SumLengths(Insert(x, s)) == |x| + SumLengths(s)
  {
    if s != [] && !LessEq(x, s[0]) {
      SumLengthsInsert(x, s[1..]);
    }
  }

  /** Sorting keeps every string, so the total length is unchanged. */
  lemma {:induction false} SumLengthsSorted(s: seq<GoString>)
    ensures SumLengths(SortStrings(s)) == SumLengths(s)
  {
    if s != [] {
      SumLengthsSorted(s[1..]);
      SumLengthsInsert(s[0], SortStrings(s[1..]));
    }
  }

  /** The sorted list depends only on which strings occur how often. */
  lemma SortStringsPermutationInvariant(s: seq<GoString>, t: seq<GoString>)
    requires multiset(s) == multiset(t)
    ensures SortStrings(s) == SortStrings(t)
  {
    SortedUnique(SortStrings(s), SortStrings(t));
  }

  method Swap(a: array<GoString>, i: nat, j: nat)
    requires i < a.Length && j < a.Length
    modifies a
    ensures a[i] == old(a[j]) && a[j] == old(a[i])
    ensures forall k :: 0 <= k < a.Length && k != i && k != j ==> a[k] == old(a[k])
    ensures multiset(a[..]) == multiset(old(a[..]))
  {
    a[i], a[j] := a[j], a[i];
  }

  /** Two permutations of each other that agree from `n` on are permutations
      of each other up to `n`. */
  lemma SameTailSamePrefix(s: seq<GoString>, t: seq<GoString>, n: nat)
    requires n <= |s| == |t| && multiset(s) == multiset(t) && s[n..] == t[n..]
    ensures multiset(s[..n]) == multiset(t[..n])
  {
    assert s == s[..n] + s[n..];
    assert t == t[..n] + t[n..];
    calc {
      multiset(s[..n]);
      multiset(s[..n]) + multiset(s[n..]) - multiset(s[n..]);
      multiset(s) - multiset(s[n..]);
      multiset(t) - multiset(t[n..]);
      multiset(t[..n]) + multiset(t[n..]) - multiset(t[n..]);
      multiset(t[..n]);
    }
  }

  /** Where an insertion step stops: `s[j]` is no smaller than its left
      neighbour and no larger than anything to its right up to `i`, and the
      other elements up to `i` are in order; then all of `s[..i + 1]` is. */
  lemma SiftedIsSorted(s: seq<GoString>, i: nat, j: nat)
    requires j <= i < |s|
    requires forall p, q :: 0 <= p < q <= i && p != j && q != j ==> LessEq(s[p], s[q])
    requires forall q :: j < q <= i ==> LessEq(s[j], s[q])
    requires j > 0 ==> LessEq(s[j - 1], s[j])
    ensures Sorted(s[..i + 1])
  {
    forall p, q | 0 <= p < q <= i ensures LessEq(s[p], s[q]) {
      if q == j && p < j - 1 {
        LessEqTransitive(s[p], s[j - 1], s[j]);
      }
    }
  }

  /** One insertion step: `a[i]` is swapped towards the front past every
      larger element, so the first `i + 1` elements become sorted. */
  method InsertAt(a: array<GoString>, i: nat)
    requires i < a.Length && Sorted(a[..i])
    modifies a
    ensures Sorted(a[..i + 1])
    ensures multiset(a[..i + 1]) == multiset(old(a[..i + 1]))
    ensures a[i + 1..] == old(a[i + 1..])
    ensures multiset(a[..]) == multiset(old(a[..]))
  {
    var j := i;
    while j > 0 && Less(a[j], a[j - 1])
      invariant 0 <= j <= i
      invariant forall p, q :: 0 <= p < q <= i && p != j && q != j ==> LessEq(a[p], a[q])
      invariant forall q :: j < q <= i ==> LessEq(a[j], a[q])
      invariant multiset(a[..]) == multiset(old(a[..]))
      invariant forall k :: i < k < a.Length ==> a[k] == old(a[k])
    {
      LessAsymmetric(a[j], a[j - 1]);
      Swap(a, j - 1, j);
      j := j - 1;
    }
    SiftedIsSorted(a[..], i, j);
    assert a[i + 1..] == old(a[i + 1..]);
    SameTailSamePrefix(a[..], old(a[..]), i + 1);
  }

  /** `sort.Strings(x)`: sorts the slice in place, in Go string order. */
  method SortInPlace(a: array<GoString>)
    modifies a
    ensures Sorted(a[..])
    ensures multiset(a[..]) == multiset(old(a[..]))
    ensures a[..] == SortStrings(old(a[..]))
  {
    for i := 0 to a.Length
      invariant Sorted(a[..i])
      invariant multiset(a[..]) == multiset(old(a[..]))
    {
      InsertAt(a, i);
    }
    assert a[..a.Length] == a[..];
    SortedUnique(a[..], SortStrings(old(a[..])));
  }
}
