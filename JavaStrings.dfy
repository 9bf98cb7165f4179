/**
 * The two operations of java.lang.String that the version registry relies on:
 * `startsWith` and the lexicographic `compareTo`.  A Java string is modelled as a
 * Dafny `string`; one Java `char` is one Dafny `char`.
 */
module JavaStrings {

  /** `s.startsWith(p)`: the first |p| characters of s are p. */
  predicate StartsWith(s: string, p: string)
  {
    |p| <= |s| && s[..|p|] == p
  }

  /**
   * `a.compareTo(b)`: the difference of the first pair of characters at which the
   * strings differ, or, when one is a prefix of the other, the difference of the lengths.
   */
  function CompareTo(a: string, b: string): (r: int)
    ensures r == 0 <==> a == b
    ensures |a| < |b| && a == b[..|a|] ==> r < 0
  {
    if |a| == 0 || |b| == 0 then |a| - |b|
    else if a[0] != b[0] then a[0] as int - b[0] as int
    else CompareTo(a[1..], b[1..])
  }

  /** `a.compareTo(b) < 0`: a sorts strictly before b. */
  predicate Below(a: string, b: string)
  {
    CompareTo(a, b) < 0
  }

  /** a and b agree before position k, and a has the smaller character at k. */
  ghost predicate FirstLessAt(a: string, b: string, k: int)
  {
    0 <= k < |a| && k < |b| && a[..k] == b[..k] && a[k] < b[k]
  }

  /**
   * The textbook lexicographic order, stated independently of CompareTo: either the
   * strings first differ at some position where a has the smaller character, or a
   * is a proper prefix of b.
   */
  ghost predicate LexLess(a: string, b: string)
  {
    (exists k :: FirstLessAt(a, b, k)) || (|a| < |b| && a == b[..|a|])
  }

  lemma {:induction false} CompareToAntisymmetric(a: string, b: string)
    ensures CompareTo(b, a) == -CompareTo(a, b)
  {
    if |a| > 0 && |b| > 0 && a[0] == b[0] {
      CompareToAntisymmetric(a[1..], b[1..]);
    }
  }

  /** Below is a strict total order. */
  lemma BelowIrreflexive(a: string)
    ensures !Below(a, a)
  {
  }

  lemma BelowTotal(a: string, b: string)
    ensures a == b || Below(a, b) || Below(b, a)
    ensures !(Below(a, b) && Below(b, a))
  {
    CompareToAntisymmetric(a, b);
  }

  lemma {:induction false} BelowTransitive(a: string, b: string, c: string)
    requires Below(a, b) && Below(b, c)
    ensures Below(a, c)
  {
    if |a| > 0 && |b| > 0 && |c| > 0 && a[0] == b[0] && b[0] == c[0] {
      BelowTransitive(a[1..], b[1..], c[1..]);
    }
  }

  /** Strings that differ in their first character are ordered by it. */
  lemma LexLessAtHead(a: string, b: string)
    requires |a| > 0 && |b| > 0 && a[0] != b[0]
    ensures LexLess(a, b) <==> a[0] < b[0]
  {
    if a[0] < b[0] {
      assert FirstLessAt(a, b, 0);
    }
    if |a| < |b| {
      assert b[..|a|][0] == b[0];
    }
    forall k | FirstLessAt(a, b, k)
      ensures k == 0
    {
      FirstLessAtHead(a, b, k);
    }
  }

  lemma FirstLessAtHead(a: string, b: string, k: int)
    requires FirstLessAt(a, b, k)
    ensures k == 0 || a[0] == b[0]
  {
    if k > 0 {
      assert a[0] == a[..k][0] && b[0] == b[..k][0];
    }
  }

  /** Strings with a common first character are ordered by their tails. */
  lemma LexLessAfterHead(a: string, b: string)
    requires |a| > 0 && |b| > 0 && a[0] == b[0]
    ensures LexLess(a, b) <==> LexLess(a[1..], b[1..])
  {
    var a', b' := a[1..], b[1..];
    forall k | FirstLessAt(a', b', k)
      ensures FirstLessAt(a, b, k + 1)
    {
      assert a[..k + 1] == [a[0]] + a'[..k] && b[..k + 1] == [b[0]] + b'[..k];
    }
    forall k | FirstLessAt(a, b, k)
      ensures FirstLessAt(a', b', k - 1)
    {
      if k == 0 {
        assert false;
      }
      assert a'[..k - 1] == a[..k][1..] && b'[..k - 1] == b[..k][1..];
    }
    if |a'| < |b'| && a' == b'[..|a'|] {
      assert a == [a[0]] + a' && b[..|a|] == [b[0]] + b'[..|a'|];
    }
    if |a| < |b| && a == b[..|a|] {
      assert a' == b[..|a|][1..];
    }
  }

  /** `compareTo` sorts strings exactly in lexicographic order. */
  lemma {:induction false} BelowIsLexicographic(a: string, b: string)
    ensures Below(a, b) <==> LexLess(a, b)
  {
    if |a| == 0 || |b| == 0 {
      if |b| == 0 {
        assert !LexLess(a, b);
      } else {
        assert a == b[..|a|];
      }
    } else if a[0] != b[0] {
      LexLessAtHead(a, b);
    } else {
      LexLessAfterHead(a, b);
      BelowIsLexicographic(a[1..], b[1..]);
    }
  }
}
