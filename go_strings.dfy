/** Go strings as the checker uses them: immutable byte sequences, ordered
    byte by byte (the order of Go's `<` on strings and of `sort.Strings`),
    and glued together by `strings.Join`. */
module GoStrings {

  newtype Byte = b: int | 0 <= b < 256

  /** A Go `string` is a sequence of bytes; nothing requires valid UTF-8. */
  type GoString = seq<Byte>

  /** The bytes of an ASCII text, for the compiled-in constants. */
  function Ascii(s: string): (r: GoString)
    requires forall i :: 0 <= i < |s| ==> s[i] as int < 128
    ensures |r| == |s|
    ensures forall i :: 0 <= i < |s| ==> r[i] as int == s[i] as int
  {
    if s == [] then [] else [s[0] as int as Byte] + Ascii(s[1..])
  }

  /** Go's `a < b` on strings: the first differing byte decides, and a proper
      prefix is smaller than the longer string. */
  predicate Less(a: GoString, b: GoString)
  {
    |b| > 0 && (|a| == 0 || a[0] < b[0] || (a[0] == b[0] && Less(a[1..], b[1..])))
  }

  /** Go's `a <= b` on strings. */
  predicate LessEq(a: GoString, b: GoString)
  {
    !Less(b, a)
  }

  lemma {:induction false} LessIrreflexive(a: GoString)
    ensures !Less(a, a)
  {
    if |a| > 0 {
      LessIrreflexive(a[1..]);
    }
  }

  lemma {:induction false} LessTransitive(a: GoString, b: GoString, c: GoString)
    requires Less(a, b) && Less(b, c)
    ensures Less(a, c)
  {
    if |a| > 0 && a[0] == b[0] && b[0] == c[0] {
      LessTransitive(a[1..], b[1..], c[1..]);
    }
  }

  /** Any two strings are ordered one way or the other, or are equal. */
  lemma {:induction false} LessTrichotomy(a: GoString, b: GoString)
    ensures Less(a, b) || a == b || Less(b, a)
  {
    if |a| > 0 && |b| > 0 && a[0] == b[0] {
      LessTrichotomy(a[1..], b[1..]);
      if a[1..] == b[1..] {
        assert a == [a[0]] + a[1..] && b == [b[0]] + b[1..];
      }
    }
  }

  lemma LessAsymmetric(a: GoString, b: GoString)
    requires Less(a, b)
    ensures !Less(b, a)
  {
    if Less(b, a) {
      LessTransitive(a, b, a);
      LessIrreflexive(a);
    }
  }

  /** `<=` is antisymmetric: two strings each `<=` the other are equal. */
  lemma LessEqAntisymmetric(a: GoString, b: GoString)
    requires LessEq(a, b) && LessEq(b, a)
    ensures a == b
  {
    LessTrichotomy(a, b);
  }

  lemma LessEqTransitive(a: GoString, b: GoString, c: GoString)
    requires LessEq(a, b) && LessEq(b, c)
    ensures LessEq(a, c)
  {
    if Less(c, a) {
      LessTrichotomy(a, b);
      if Less(a, b) {
        LessTransitive(c, a, b);
      }
    }
  }

  /** A proper prefix is smaller than the string it starts. */
  lemma {:induction false} PrefixIsLess(a: GoString, b: GoString)
    requires |a| < |b| && a == b[..|a|]
    ensures Less(a, b)
  {
    if |a| > 0 {
      assert a[1..] == b[1..][..|a| - 1];
      PrefixIsLess(a[1..], b[1..]);
    }
  }

  /** Go's `strings.Join(elems, sep)`: no element gives "", one element gives
      itself, and otherwise `sep` is written between neighbouring elements. */
  function Join(elems: seq<GoString>, sep: GoString): GoString
  {
    if |elems| == 0 then []
    else if |elems| == 1 then elems[0]
    else elems[0] + sep + Join(elems[1..], sep)
  }

  /** The total length of the elements of a list. */
  function SumLengths(elems: seq<GoString>): nat
  {
    if elems == [] then 0 else |elems[0]| + SumLengths(elems[1..])
  }

  lemma {:induction false} SumLengthsAppend(elems: seq<GoString>, x: GoString)
    ensures SumLengths(elems + [x]) == SumLengths(elems) + |x|
  {
    if elems == [] {
      assert [] + [x] == [x] && [x][1..] == [];
    } else {
      assert (elems + [x])[1..] == elems[1..] + [x];
      SumLengthsAppend(elems[1..], x);
    }
  }

  /** Where element `i` starts in `Join(elems, sep)`: after the `i` elements
      before it and one separator behind each of them. */
  function JoinOffset(elems: seq<GoString>, sep: GoString, i: nat): nat
    requires i <= |elems|
  {
    SumLengths(elems[..i]) + i * |sep|
  }

  lemma {:induction false} JoinLength(elems: seq<GoString>, sep: GoString)
    ensures |Join(elems, sep)| == if elems == [] then 0 else SumLengths(elems) + (|elems| - 1) * |sep|
  {
    if |elems| > 1 {
      JoinLength(elems[1..], sep);
      assert (|elems| - 1) * |sep| == |sep| + (|elems| - 2) * |sep|;
    }
  }

  /** Element `i` of the tail starts one element and one separator later
      in the whole list. */
  lemma JoinOffsetStep(elems: seq<GoString>, sep: GoString, i: nat)
    requires 0 < i <= |elems|
    ensures JoinOffset(elems, sep, i) == |elems[0]| + |sep| + JoinOffset(elems[1..], sep, i - 1)
  {
    assert elems[..i][1..] == elems[1..][..i - 1];
    assert i * |sep| == |sep| + (i - 1) * |sep|;
  }

  lemma SliceAfterPrefix(a: GoString, b: GoString, p: nat, q: nat)
    requires p <= q <= |b|
    ensures (a + b)[|a| + p..|a| + q] == b[p..q]
  {
  }

  /** Element `i` appears, unchanged, at `JoinOffset(elems, sep, i)`. */
  lemma {:induction false} JoinElementAt(elems: seq<GoString>, sep: GoString, i: nat)
    requires i < |elems|
    ensures JoinOffset(elems, sep, i) + |elems[i]| <= |Join(elems, sep)|
    ensures Join(elems, sep)[JoinOffset(elems, sep, i)..JoinOffset(elems, sep, i) + |elems[i]|] == elems[i]
  {
    if i == 0 {
      assert elems[..0] == [];
      if |elems| > 1 {
        assert Join(elems, sep) == elems[0] + (sep + Join(elems[1..], sep));
      }
    } else {
      JoinElementAt(elems[1..], sep, i - 1);
      JoinOffsetStep(elems, sep, i);
      var off' := JoinOffset(elems[1..], sep, i - 1);
      assert Join(elems, sep) == (elems[0] + sep) + Join(elems[1..], sep);
      SliceAfterPrefix(elems[0] + sep, Join(elems[1..], sep), off', off' + |elems[i]|);
    }
  }

  /** A separator follows every element but the last. */
  lemma {:induction false} JoinSeparatorAfter(elems: seq<GoString>, sep: GoString, i: nat)
    requires i + 1 < |elems|
    ensures JoinOffset(elems, sep, i) + |elems[i]| + |sep| <= |Join(elems, sep)|
    ensures Join(elems, sep)[JoinOffset(elems, sep, i) + |elems[i]|..JoinOffset(elems, sep, i) + |elems[i]| + |sep|] == sep
  {
    if i == 0 {
      assert elems[..0] == [];
      assert Join(elems, sep) == elems[0] + sep + Join(elems[1..], sep);
      SliceAfterPrefix(elems[0], sep + Join(elems[1..], sep), 0, |sep|);
    } else {
      JoinSeparatorAfter(elems[1..], sep, i - 1);
      JoinOffsetStep(elems, sep, i);
      var e' := JoinOffset(elems[1..], sep, i - 1) + |elems[i]|;
      assert Join(elems, sep) == (elems[0] + sep) + Join(elems[1..], sep);
      SliceAfterPrefix(elems[0] + sep, Join(elems[1..], sep), e', e' + |sep|);
    }
  }
}
