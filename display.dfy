/** The `tree` rendering. `displayTree(node, level)` prints the node at `level`,
    then recurses into its first child at `level + 1`, then into its next
    sibling at `level`. Here a directory tree is a value whose children are
    kept in stored sibling order, and the chain "a node and the siblings after
    it" is the suffix `parent.children[i..]`. */
module Display {

  datatype Tree = Tree(name: string, isFile: bool, children: seq<Tree>)

  /** One printed line: indentation level, "File:" or "Folder:", the name. */
  datatype Line = Line(level: nat, isFile: bool, name: string)

  function LineOf(t: Tree, level: nat): Line
  {
    Line(level, t.isFile, t.name)
  }

  /** `displayTree(parent.children[i], level)`: the recursion of the source,
      over the child pointer and then the sibling pointer. */
  function DisplayChain(parent: Tree, i: nat, level: nat): seq<Line>
    requires i <= |parent.children|
    decreases parent, |parent.children| - i
  {
    if i == |parent.children| then []
    else
      var node := parent.children[i];
      [LineOf(node, level)] + DisplayChain(node, 0, level + 1) + DisplayChain(parent, i + 1, level)
  }

  /** `displayTree(root, 0)`: the root has no sibling. */
  function DisplayTree(root: Tree): seq<Line>
  {
    [LineOf(root, 0)] + DisplayChain(root, 0, 1)
  }

  /** Reference definition: pre-order, each node at its depth followed by the
      subtrees of its children, in order, one level deeper. */
  function Preorder(t: Tree, level: nat): seq<Line>
    decreases t, 1
  {
    [LineOf(t, level)] + PreorderAll(t, |t.children|, level + 1)
  }

  /** The pre-order listings of the first n children of `parent`, one after another. */
  function PreorderAll(parent: Tree, n: nat, level: nat): seq<Line>
    requires n <= |parent.children|
    decreases parent, 0, n
  {
    if n == 0 then []
    else PreorderAll(parent, n - 1, level) + Preorder(parent.children[n - 1], level)
  }

  /** The number of nodes of a tree. */
  function Size(t: Tree): nat
    decreases t, 1
  {
    1 + SizeAll(t, |t.children|)
  }

  function SizeAll(parent: Tree, n: nat): nat
    requires n <= |parent.children|
    decreases parent, 0, n
  {
    if n == 0 then 0 else SizeAll(parent, n - 1) + Size(parent.children[n - 1])
  }

  /** The children from position i on, rendered one after another. */
  lemma {:induction false} PreorderSuffix(parent: Tree, i: nat, level: nat)
    requires i <= |parent.children|
    ensures PreorderAll(parent, |parent.children|, level)
         == PreorderAll(parent, i, level) + PreorderRest(parent, i, level)
    decreases |parent.children| - i
  {
    if i < |parent.children| {
      PreorderSuffix(parent, i + 1, level);
      assert PreorderAll(parent, i + 1, level) == PreorderAll(parent, i, level) + Preorder(parent.children[i], level);
    }
  }

  /** The pre-order listings of the children from position i on. */
  function PreorderRest(parent: Tree, i: nat, level: nat): seq<Line>
    requires i <= |parent.children|
    decreases parent, |parent.children| - i
  {
    if i == |parent.children| then []
    else Preorder(parent.children[i], level) + PreorderRest(parent, i + 1, level)
  }

  /** The source's child-then-sibling recursion emits exactly the pre-order
      listing of the chain. */
  lemma {:induction false} DisplayChainIsPreorder(parent: Tree, i: nat, level: nat)
    requires i <= |parent.children|
    ensures DisplayChain(parent, i, level) == PreorderRest(parent, i, level)
    decreases parent, |parent.children| - i
  {
    if i < |parent.children| {
      var node := parent.children[i];
      DisplayChainIsPreorder(node, 0, level + 1);
      DisplayChainIsPreorder(parent, i + 1, level);
      PreorderSuffix(node, 0, level + 1);
    }
  }

  /** `displayTree(root, 0)` is the pre-order listing of the whole tree. */
  lemma DisplayTreeIsPreorder(root: Tree)
    ensures DisplayTree(root) == Preorder(root, 0)
  {
    DisplayChainIsPreorder(root, 0, 1);
    PreorderSuffix(root, 0, 1);
  }

  /** Every node is printed once: a tree of n nodes renders as n lines. */
  lemma {:induction false} PreorderLength(t: Tree, level: nat)
    ensures |Preorder(t, level)| == Size(t)
    decreases t, 1
  {
    PreorderAllLength(t, |t.children|, level + 1);
  }

  lemma {:induction false} PreorderAllLength(parent: Tree, n: nat, level: nat)
    requires n <= |parent.children|
    ensures |PreorderAll(parent, n, level)| == SizeAll(parent, n)
    decreases parent, 0, n
  {
    if n > 0 {
      PreorderAllLength(parent, n - 1, level);
      PreorderLength(parent.children[n - 1], level);
    }
  }

  /** A node's line comes first, at its own level, and every line below it is
      deeper. */
  lemma {:induction false} PreorderLevels(t: Tree, level: nat)
    ensures Preorder(t, level)[0] == LineOf(t, level)
    ensures forall j :: 1 <= j < |Preorder(t, level)| ==> Preorder(t, level)[j].level > level
    decreases t, 1
  {
    PreorderAllLevels(t, |t.children|, level + 1);
  }

  lemma {:induction false} PreorderAllLevels(parent: Tree, n: nat, level: nat)
    requires n <= |parent.children|
    ensures forall j :: 0 <= j < |PreorderAll(parent, n, level)| ==> PreorderAll(parent, n, level)[j].level >= level
    decreases parent, 0, n
  {
    if n > 0 {
      PreorderAllLevels(parent, n - 1, level);
      PreorderLevels(parent.children[n - 1], level);
    }
  }
}
