/** Paths as `getFullPath` writes them: "/" followed by a name, once per node on
    the chain from the root down. */
module Path {
  import opened Names

  /** The path of a chain of names, built the way `getFullPath` builds it:
      first the path of the ancestors, then "/" and the last name. */
  function JoinPath(names: seq<string>): string
  {
    if names == [] then "" else JoinPath(names[..|names| - 1]) + "/" + names[|names| - 1]
  }

  /** Position of the last '/' of p, or -1 when there is none. */
  function LastSlash(p: string): (k: int)
    ensures -1 <= k < |p|
    ensures k >= 0 ==> p[k] == '/'
    ensures forall i :: k < i < |p| ==> p[i] != '/'
  {
    if p == [] then -1
    else if p[|p| - 1] == '/' then |p| - 1
    else LastSlash(p[..|p| - 1])
  }

  /** Reads a path back into the names between its slashes. */
  function SplitPath(p: string): seq<string>
    decreases |p|
  {
    if p == [] then []
    else
      var k := LastSlash(p);
      if k < 0 then [p] else SplitPath(p[..k]) + [p[k + 1..]]
  }

  /** The path of a non-empty chain starts with "/". */
  lemma {:induction false} JoinPathShape(names: seq<string>)
    ensures names != [] ==> |JoinPath(names)| > 0 && JoinPath(names)[0] == '/'
  {
    if names != [] {
      JoinPathShape(names[..|names| - 1]);
    }
  }

  /** Because valid names hold no '/', the path determines the chain of names. */
  lemma {:induction false} SplitJoin(names: seq<string>)
    requires forall i :: 0 <= i < |names| ==> ValidName(names[i])
    ensures SplitPath(JoinPath(names)) == names
  {
    if names != [] {
      var init, last := names[..|names| - 1], names[|names| - 1];
      var prefix := JoinPath(init);
      var p := prefix + "/" + last;
      assert p == JoinPath(names);
      assert p[|prefix|] == '/';
      assert forall i :: |prefix| < i < |p| ==> p[i] == last[i - |prefix| - 1];
      assert LastSlash(p) == |prefix|;
      assert p[..|prefix|] == prefix && p[|prefix| + 1..] == last;
      SplitJoin(init);
      assert init + [last] == names;
    }
  }
}
