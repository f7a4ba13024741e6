/** Names of files and folders, and the ordered sibling lists they are kept in:
    name validation, the search for a case-insensitive match, the sorted
    insertion point, and the two splices (insert at a position, remove at a
    position) that the linked sibling lists perform. */
module Names {
  import opened CaseFold

  /** `isValidName`: not empty, and neither '/' nor '\' anywhere. */
  predicate ValidName(name: string)
  {
    |name| > 0 && forall i :: 0 <= i < |name| ==> name[i] != '/' && name[i] != '\\'
  }

  /** The loop of `isValidName`. */
  method IsValidName(name: string) returns (ok: bool)
    ensures ok <==> ValidName(name)
  {
    var len := |name|;
    if len == 0 {
      return false;
    }
    var i := 0;
    while i < len
      invariant 0 <= i <= len
      invariant forall j :: 0 <= j < i ==> name[j] != '/' && name[j] != '\\'
    {
      if name[i] == '/' || name[i] == '\\' {
        return false;
      }
      i := i + 1;
    }
    return true;
  }

  /** Every name of a list is a C string. */
  predicate AllCStrings(names: seq<string>)
  {
    forall i :: 0 <= i < |names| ==> CString(names[i])
  }

  /** Strictly ascending under case-insensitive comparison. */
  predicate Ascending(names: seq<string>)
  {
    forall i, j :: 0 <= i < j < |names| ==> CompareCI(names[i], names[j]) < 0
  }

  /** No two names are equal up to case. */
  predicate CaseUnique(names: seq<string>)
  {
    forall i, j :: 0 <= i < j < |names| ==> Fold(names[i]) != Fold(names[j])
  }

  /** Position of the first name equal to `x` up to case, or |names| when there is none. */
  function FirstMatch(names: seq<string>, x: string): (k: nat)
    ensures k <= |names|
    ensures forall i :: 0 <= i < k ==> CompareCI(names[i], x) != 0
    ensures k < |names| ==> CompareCI(names[k], x) == 0
  {
    if names == [] then 0
    else if CompareCI(names[0], x) == 0 then 0
    else 1 + FirstMatch(names[1..], x)
  }

  /** Position before the first name that `x` does not compare above: where a
      new name is spliced in. */
  function InsertPos(names: seq<string>, x: string): (k: nat)
    ensures k <= |names|
    ensures forall i :: 0 <= i < k ==> CompareCI(x, names[i]) > 0
    ensures k < |names| ==> CompareCI(x, names[k]) <= 0
  {
    if names == [] then 0
    else if CompareCI(x, names[0]) <= 0 then 0
    else 1 + InsertPos(names[1..], x)
  }

  /** `x` spliced into `s` just before position k. */
  function InsertAt<T>(s: seq<T>, k: nat, x: T): (r: seq<T>)
    requires k <= |s|
    ensures |r| == |s| + 1 && r[k] == x
    ensures forall i :: 0 <= i < k ==> r[i] == s[i]
    ensures forall i :: k < i < |r| ==> r[i] == s[i - 1]
  {
    s[..k] + [x] + s[k..]
  }

  /** `s` with the element at position k unlinked. */
  function RemoveAt<T>(s: seq<T>, k: nat): (r: seq<T>)
    requires k < |s|
    ensures |r| == |s| - 1
    ensures forall i :: 0 <= i < k ==> r[i] == s[i]
    ensures forall i :: k <= i < |r| ==> r[i] == s[i + 1]
  {
    s[..k] + s[k + 1..]
  }

  /** Splicing an element in and unlinking it again gives back the list. */
  lemma {:induction false} RemoveInserted<T>(s: seq<T>, k: nat, x: T)
    requires k <= |s|
    ensures RemoveAt(InsertAt(s, k, x), k) == s
  {
    var r := RemoveAt(InsertAt(s, k, x), k);
    assert forall i :: 0 <= i < |s| ==> r[i] == s[i];
  }

  /** A strictly ascending list has no two names equal up to case. */
  lemma {:induction false} AscendingIsCaseUnique(names: seq<string>)
    requires AllCStrings(names) && Ascending(names)
    ensures CaseUnique(names)
  {
    forall i, j | 0 <= i < j < |names|
      ensures Fold(names[i]) != Fold(names[j])
    {
      CompareZeroIff(names[i], names[j]);
    }
  }

  /** A name with no case-insensitive match, inserted at its insertion point,
      keeps the list strictly ascending. */
  lemma {:induction false} InsertKeepsAscending(names: seq<string>, x: string)
    requires AllCStrings(names) && CString(x) && Ascending(names)
    requires FirstMatch(names, x) == |names|
    ensures Ascending(InsertAt(names, InsertPos(names, x), x))
  {
    var k := InsertPos(names, x);
    var r := InsertAt(names, k, x);
    if k < |names| {
      CompareAntisymmetric(names[k], x);
      assert CompareCI(x, names[k]) < 0;
    }
    forall i, j | 0 <= i < j < |r|
      ensures CompareCI(r[i], r[j]) < 0
    {
      if j < k {
        assert r[i] == names[i] && r[j] == names[j];
      } else if j == k {
        CompareAntisymmetric(x, names[i]);
      } else if i > k {
        assert r[i] == names[i - 1] && r[j] == names[j - 1];
      } else if i == k {
        if j - 1 > k {
          CompareTransitive(x, names[k], names[j - 1]);
        }
      } else {
        CompareAntisymmetric(x, names[i]);
        assert CompareCI(names[i], x) < 0;
        if j - 1 > k {
          CompareTransitive(x, names[k], names[j - 1]);
        }
        CompareTransitive(names[i], x, names[j - 1]);
      }
    }
  }

  /** Unlinking any element keeps the list strictly ascending. */
  lemma {:induction false} RemoveKeepsAscending(names: seq<string>, k: nat)
    requires k < |names| && Ascending(names)
    ensures Ascending(RemoveAt(names, k))
  {
    var r := RemoveAt(names, k);
    forall i, j | 0 <= i < j < |r|
      ensures CompareCI(r[i], r[j]) < 0
    {
      var i', j' := if i < k then i else i + 1, if j < k then j else j + 1;
      assert r[i] == names[i'] && r[j] == names[j'];
    }
  }

  /** In a strictly ascending list, the first case-insensitive match is the
      only one. */
  lemma {:induction false} AscendingMatchIsUnique(names: seq<string>, x: string, j: nat)
    requires AllCStrings(names) && CString(x) && Ascending(names)
    requires j < |names| && CompareCI(names[j], x) == 0
    ensures FirstMatch(names, x) == j
  {
    var k := FirstMatch(names, x);
    if k < j {
      CompareZeroIff(names[k], x);
      CompareZeroIff(names[j], x);
      CompareZeroIff(names[k], names[j]);
      assert false;
    }
  }

  /** The guard of the `rm` command: it refuses when the current folder and the
      target are both named "Root" up to case. */
  function RootDeleteGuard(currentName: string, target: string): (refuse: bool)
    requires CString(currentName) && CString(target)
    ensures refuse <==> Fold(currentName) == "root" && Fold(target) == "root"
  {
    CompareZeroIff(currentName, "Root");
    CompareZeroIff(target, "Root");
    assert Fold("Root") == "root";
    CompareCI(currentName, "Root") == 0 && CompareCI(target, "Root") == 0
  }

  /** The guard looks at names only: inside a folder named "root" (at any
      depth), `rm ROOT` is refused, though the target is then an ordinary
      child. */
  lemma GuardFiresInNestedRoot()
    ensures RootDeleteGuard("root", "ROOT")
  {
    assert Fold("root") == "root" && Fold("ROOT") == "root";
  }
}
