/** Case-insensitive comparison of C strings, as `strcasecmp_custom` does it:
    walk both strings while neither has ended, compare the lower-cased
    characters, and at the end compare the raw terminating characters. */
module CaseFold {

  /** `tolower` in the "C" locale: only 'A'..'Z' change. */
  function Lower(c: char): char
  {
    if 'A' <= c <= 'Z' then (c as int + 32) as char else c
  }

  /** The string with every character lower-cased. */
  function Fold(s: string): (f: string)
    ensures |f| == |s|
  {
    seq(|s|, i requires 0 <= i < |s| => Lower(s[i]))
  }

  /** A C string holds no NUL character: its end is the terminator. */
  predicate CString(s: string)
  {
    forall i :: 0 <= i < |s| ==> s[i] != '\0'
  }

  /** The character under the cursor of a C string: its terminator (0) once it has ended. */
  function Code(s: string): int
  {
    if s == [] then 0 else s[0] as int
  }

  /** The value `strcasecmp_custom(a, b)` returns. */
  function CompareCI(a: string, b: string): int
  {
    if a != [] && b != [] then
      if Lower(a[0]) != Lower(b[0]) then Lower(a[0]) as int - Lower(b[0]) as int
      else CompareCI(a[1..], b[1..])
    else
      Code(a) - Code(b)
  }

  /** The loop of `strcasecmp_custom`, advancing one cursor over both strings. */
  method CaseCompare(a: string, b: string) returns (r: int)
    ensures r == CompareCI(a, b)
  {
    var i := 0;
    while i < |a| && i < |b|
      invariant 0 <= i <= |a| && i <= |b|
      invariant CompareCI(a[i..], b[i..]) == CompareCI(a, b)
    {
      var ca := Lower(a[i]);
      var cb := Lower(b[i]);
      if ca != cb {
        return ca as int - cb as int;
      }
      assert a[i..][1..] == a[i + 1..] && b[i..][1..] == b[i + 1..];
      i := i + 1;
    }
    r := Code(a[i..]) - Code(b[i..]);
  }

  lemma {:induction false} FoldCons(s: string)
    requires s != []
    ensures Fold(s) == [Lower(s[0])] + Fold(s[1..])
  {
  }

  /** Swapping the arguments negates the result. */
  lemma {:induction false} CompareAntisymmetric(a: string, b: string)
    ensures CompareCI(b, a) == -CompareCI(a, b)
  {
    if a != [] && b != [] && Lower(a[0]) == Lower(b[0]) {
      CompareAntisymmetric(a[1..], b[1..]);
    }
  }

  /** Every string compares equal to itself. */
  lemma {:induction false} CompareReflexive(a: string)
    ensures CompareCI(a, a) == 0
  {
    if a != [] {
      CompareReflexive(a[1..]);
    }
  }

  /** The result is 0 exactly when both strings have the same length and are
      equal once lower-cased. */
  lemma {:induction false} CompareZeroIff(a: string, b: string)
    requires CString(a) && CString(b)
    ensures CompareCI(a, b) == 0 <==> Fold(a) == Fold(b)
  {
    if a != [] && b != [] {
      FoldCons(a);
      FoldCons(b);
      if Lower(a[0]) == Lower(b[0]) {
        CompareZeroIff(a[1..], b[1..]);
        assert Fold(a) == Fold(b) ==> Fold(a)[1..] == Fold(b)[1..];
      } else {
        assert Fold(a)[0] != Fold(b)[0];
      }
    } else if a != [] {
      assert a[0] != '\0';
    } else if b != [] {
      assert b[0] != '\0';
    }
  }

  /** When the lower-cased strings first differ at position k, the result is the
      difference of the lower-cased characters there. */
  lemma {:induction false} CompareAtFirstDifference(a: string, b: string, k: nat)
    requires k < |a| && k < |b|
    requires forall i :: 0 <= i < k ==> Lower(a[i]) == Lower(b[i])
    requires Lower(a[k]) != Lower(b[k])
    ensures CompareCI(a, b) == Lower(a[k]) as int - Lower(b[k]) as int
  {
    if k > 0 {
      assert Lower(a[0]) == Lower(b[0]);
      CompareAtFirstDifference(a[1..], b[1..], k - 1);
    }
  }

  /** A proper prefix (up to case) compares as smaller: the result is minus the
      first extra character of the longer string. */
  lemma {:induction false} ComparePrefix(a: string, b: string)
    requires CString(b) && |a| < |b|
    requires forall i :: 0 <= i < |a| ==> Lower(a[i]) == Lower(b[i])
    ensures CompareCI(a, b) == -(b[|a|] as int) < 0
  {
    if a != [] {
      assert Lower(a[0]) == Lower(b[0]);
      ComparePrefix(a[1..], b[1..]);
    } else {
      assert b[0] != '\0';
    }
  }

  /** "Compares below" is transitive on C strings, so it orders sibling names. */
  lemma {:induction false} CompareTransitive(a: string, b: string, c: string)
    requires CString(a) && CString(b) && CString(c)
    requires CompareCI(a, b) < 0 && CompareCI(b, c) < 0
    ensures CompareCI(a, c) < 0
  {
    if a == [] {
      assert c != [] && c[0] != '\0';
    } else if Lower(a[0]) == Lower(b[0]) && Lower(b[0]) == Lower(c[0]) {
      CompareTransitive(a[1..], b[1..], c[1..]);
    }
  }
}
