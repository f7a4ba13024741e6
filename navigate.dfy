/** The read-only operations on the tree: `changeDir`, `list` and
    `getFullPath`. */
module Navigate {
  import opened CaseFold
  import opened Names
  import opened Path
  import opened FsTree

  /** Position of the first node of ks that is a folder whose name equals
      `name` up to case, or |ks| when there is none. */
  function FirstFolder(ks: seq<Node>, name: string): (k: nat)
    ensures k <= |ks|
    ensures forall i :: 0 <= i < k ==> ks[i].isFile || CompareCI(ks[i].name, name) != 0
    ensures k < |ks| ==> !ks[k].isFile && CompareCI(ks[k].name, name) == 0
  {
    if ks == [] then 0
    else if CompareCI(ks[0].name, name) == 0 && !ks[0].isFile then 0
    else 1 + FirstFolder(ks[1..], name)
  }

  /** Where `changeDir(current, name)` goes: for "..", the parent, or the
      current folder at the root; otherwise the first child folder whose name
      equals `name` up to case, or the current folder when there is none. */
  ghost function CdTarget(current: Node, name: string): Node
    reads current
  {
    if name == ".." then
      if current.parent != null then current.parent else current
    else
      var k := FirstFolder(current.kids, name);
      if k < |current.kids| then current.kids[k] else current
  }

  /** `changeDir`: the comparison with ".." is exact; the search for a child
      folder walks the sibling list. Nothing is modified. */
  method ChangeDir(current: Node, name: string) returns (next: Node)
    requires Linked(current)
    ensures next == CdTarget(current, name)
  {
    if name == ".." {
      if current.parent != null {
        return current.parent;
      } else {
        return current;
      }
    }
    var temp := current.child;
    ghost var i := 0;
    while temp != null
      invariant 0 <= i <= |current.kids|
      invariant temp == (if i < |current.kids| then current.kids[i] else null)
      invariant forall j :: 0 <= j < i ==> current.kids[j].isFile || CompareCI(current.kids[j].name, name) != 0
      decreases |current.kids| - i
    {
      if CompareCI(temp.name, name) == 0 && !temp.isFile {
        assert FirstFolder(current.kids, name) == i;
        return temp;
      }
      assert Siblings(current.kids)[i] == temp.sibling;
      temp := temp.sibling;
      i := i + 1;
    }
    assert FirstFolder(current.kids, name) == |current.kids|;
    return current;
  }

  /** In a well-formed folder the names are unique up to case, so `cd`
      enters a child exactly when the (only) child with that name is a
      folder: a file of that name does not hide a folder behind it. */
  lemma CdMatchesUniqueChild(current: Node, name: string)
    requires LocalOk(current) && CString(name)
    ensures var ks, k := current.kids, FirstMatch(NamesOf(current.kids), name);
            FirstFolder(ks, name) == (if k < |ks| && !ks[k].isFile then k else |ks|)
  {
    var ks := current.kids;
    var k := FirstMatch(NamesOf(ks), name);
    var f := FirstFolder(ks, name);
    ChildNamesAreCStrings(ks);
    if f < |ks| {
      assert NamesOf(ks)[f] == ks[f].name;
      AscendingMatchIsUnique(NamesOf(ks), name, f);
    } else if k < |ks| {
      assert NamesOf(ks)[k] == ks[k].name;
    }
  }

  /** `cd` never leaves the tree and always lands on a folder. */
  lemma CdStaysInTree(S: set<Node>, root: Node, current: Node, name: string)
    requires IsTree(S, root) && current in S && !current.isFile
    ensures CdTarget(current, name) in S && !CdTarget(current, name).isFile
  {
    assert LocalOk(current);
    var k := FirstFolder(current.kids, name);
    if name != ".." && k < |current.kids| {
      assert current.kids[k] in current.kids;
    }
  }

  /** One line of `list`: "[File] name" or "[Folder] name". */
  datatype Entry = Entry(isFile: bool, name: string)

  /** `list`: the children of the folder in sibling order; an empty result is
      the "(empty)" line. */
  method List(folder: Node) returns (entries: seq<Entry>)
    requires Linked(folder)
    ensures |entries| == |folder.kids|
    ensures forall i :: 0 <= i < |entries| ==>
              entries[i] == Entry(folder.kids[i].isFile, folder.kids[i].name)
  {
    entries := [];
    var temp := folder.child;
    while temp != null
      invariant |entries| <= |folder.kids|
      invariant temp == (if |entries| < |folder.kids| then folder.kids[|entries|] else null)
      invariant forall i :: 0 <= i < |entries| ==>
                  entries[i] == Entry(folder.kids[i].isFile, folder.kids[i].name)
      decreases |folder.kids| - |entries|
    {
      assert Siblings(folder.kids)[|entries|] == temp.sibling;
      entries := entries + [Entry(temp.isFile, temp.name)];
      temp := temp.sibling;
    }
  }

  /** The names `list` prints for a well-formed folder are in strictly
      ascending case-insensitive order, so no two are equal up to case. */
  lemma ListIsSorted(folder: Node, entries: seq<Entry>)
    requires LocalOk(folder)
    requires |entries| == |folder.kids|
    requires forall i :: 0 <= i < |entries| ==>
               entries[i] == Entry(folder.kids[i].isFile, folder.kids[i].name)
    ensures Ascending(seq(|entries|, i requires 0 <= i < |entries| => entries[i].name))
    ensures CaseUnique(seq(|entries|, i requires 0 <= i < |entries| => entries[i].name))
  {
    var names := seq(|entries|, i requires 0 <= i < |entries| => entries[i].name);
    assert names == NamesOf(folder.kids);
    ChildNamesAreCStrings(folder.kids);
    AscendingIsCaseUnique(names);
  }

  /** `getFullPath`: the path of the parent (none for the root), then "/"
      and the node's name. A null node gives the empty path. */
  function FullPath(n: Node?): (p: string)
    requires n != null ==> Rooted(n)
    decreases if n == null then 0 else n.level + 1
  {
    if n == null then ""
    else (if n.parent != null then FullPath(n.parent) else "") + "/" + n.name
  }

  /** The names on the chain from the root down to n. */
  ghost function Ancestry(n: Node): (names: seq<string>)
    requires Rooted(n)
    decreases n.level
  {
    (if n.parent != null then Ancestry(n.parent) else []) + [n.name]
  }

  /** The path of a node joins the names from the root down, one per level. */
  lemma {:induction false} FullPathIsJoin(n: Node)
    requires Rooted(n)
    ensures FullPath(n) == JoinPath(Ancestry(n))
    ensures |Ancestry(n)| == n.level + 1 && Ancestry(n)[|Ancestry(n)| - 1] == n.name
    ensures forall i :: 0 <= i < |Ancestry(n)| ==> ValidName(Ancestry(n)[i])
    decreases n.level
  {
    var a := Ancestry(n);
    if n.parent != null {
      FullPathIsJoin(n.parent);
      assert a[..|a| - 1] == Ancestry(n.parent);
    } else {
      assert a == [n.name];
    }
  }

  /** The path determines the node's ancestry: reading it back at the slashes
      gives the names from the root down. */
  lemma FullPathReadsBack(n: Node)
    requires Rooted(n)
    ensures SplitPath(FullPath(n)) == Ancestry(n)
  {
    FullPathIsJoin(n);
    SplitJoin(Ancestry(n));
  }

  /** The prompt at the root of the simulator is "/Root". */
  lemma RootPath(root: Node)
    requires Rooted(root) && root.parent == null && root.name == "Root"
    ensures FullPath(root) == "/Root"
  {
  }
}
