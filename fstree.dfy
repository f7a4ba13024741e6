/** The in-memory directory tree of the simulator. Every node has a name, a
    file/folder flag, a pointer to its parent, a pointer to its first child and
    a pointer to its next sibling; a folder's children form a singly linked
    sibling list kept in ascending case-insensitive order. */
module FsTree {
  import opened CaseFold
  import opened Names

  class Node {
    /** Set once by `createNode` and never written again. */
    const name: string
    const isFile: bool
    const parent: Node?
    /** Depth below the root: the measure for walks up the parent pointers. */
    ghost const level: nat

    var child: Node?
    var sibling: Node?
    /** The sibling list that starts at `child`, in link order. */
    ghost var kids: seq<Node>

    /** `createNode`: no children, no sibling, the given parent. */
    constructor (name: string, isFile: bool, parent: Node?)
      ensures this.name == name && this.isFile == isFile && this.parent == parent
      ensures level == if parent == null then 0 else parent.level + 1
      ensures child == null && sibling == null && kids == []
    {
      this.name := name;
      this.isFile := isFile;
      this.parent := parent;
      this.level := if parent == null then 0 else parent.level + 1;
      child := null;
      sibling := null;
      kids := [];
    }
  }

  /** The names of a list of nodes. */
  function NamesOf(ns: seq<Node>): seq<string>
  {
    seq(|ns|, i requires 0 <= i < |ns| => ns[i].name)
  }

  /** The chain of parent pointers from n ends at a root at level 0; every
      node on it has a valid name, and every proper ancestor is a folder one
      level up. */
  ghost predicate Rooted(n: Node)
    decreases n.level
  {
    && ValidName(n.name) && CString(n.name)
    && (n.parent == null ==> n.level == 0)
    && (n.parent != null ==>
          n.level == n.parent.level + 1 && !n.parent.isFile && Rooted(n.parent))
  }

  /** m lies in the subtree of n (following parent pointers up from m reaches n). */
  ghost predicate Below(m: Node, n: Node)
    decreases m.level
  {
    m == n || (m.parent != null && m.parent.level < m.level && Below(m.parent, n))
  }

  /** The nodes of S in the subtree of n. */
  ghost function Sub(n: Node, S: set<Node>): set<Node>
  {
    set m | m in S && Below(m, n)
  }

  /** The `sibling` pointers of a list of nodes, in order. */
  ghost function Siblings(ks: seq<Node>): (r: seq<Node?>)
    reads ks
    ensures |r| == |ks|
  {
    seq(|ks|, j requires 0 <= j < |ks| reads ks => ks[j].sibling)
  }

  /** `head` and `sibs` link up the nodes of ks in order: the head is the first
      node, the sibling of each node is the next one and that of the last is
      null; no node occurs twice. */
  ghost predicate Chained(head: Node?, ks: seq<Node>, sibs: seq<Node?>)
  {
    && |sibs| == |ks|
    && head == (if ks == [] then null else ks[0])
    && (forall j :: 0 <= j < |ks| ==> sibs[j] == (if j + 1 < |ks| then ks[j + 1] else null))
    && (forall a, b :: 0 <= a < b < |ks| ==> ks[a] != ks[b])
  }

  /** The pointers of m agree with its ghost sibling list. */
  ghost predicate Linked(m: Node)
    reads m`child, m`kids, m.kids
  {
    Chained(m.child, m.kids, Siblings(m.kids))
  }

  /** What holds of a single node of the tree: a rooted name, linked children
      that point back to it, none under a file, in strictly ascending order. */
  ghost predicate LocalOk(m: Node)
    reads m`child, m`kids, m.kids
  {
    && Rooted(m)
    && Linked(m)
    && (m.isFile ==> m.kids == [])
    && (forall k :: k in m.kids ==> k.parent == m && Rooted(k))
    && Ascending(NamesOf(m.kids))
  }

  /** S is closed under children, every node of S is well formed, and every
      node whose parent is in S is among that parent's children. S is the
      whole tree, or (during a deletion) a detached subtree. */
  ghost predicate Wf(S: set<Node>)
    reads S
  {
    && (forall m, k :: m in S && k in m.kids ==> k in S)
    && (forall m :: m in S ==> LocalOk(m))
    && (forall m :: m in S && m.parent != null && m.parent in S ==> m in m.parent.kids)
  }

  /** S hangs from `top`: every node of S other than top has its parent in S. */
  ghost predicate Hangs(S: set<Node>, top: Node)
  {
    top in S && forall m :: m in S ==> m == top || m.parent in S
  }

  /** A well-formed tree, or a detached subtree, whose top node is `top`. */
  ghost predicate Tree(S: set<Node>, top: Node)
    reads S
  {
    Wf(S) && Hangs(S, top)
  }

  /** The whole directory tree: a folder without a parent at the top. */
  ghost predicate IsTree(S: set<Node>, root: Node)
    reads S
  {
    Tree(S, root) && root.parent == null && !root.isFile
  }

  lemma {:induction false} BelowLevel(m: Node, n: Node)
    requires Below(m, n)
    ensures m.level >= n.level
    ensures m.level == n.level ==> m == n
    decreases m.level
  {
    if m != n {
      BelowLevel(m.parent, n);
    }
  }

  /** A node is never among its own children. */
  lemma NotOwnChild(m: Node)
    requires LocalOk(m)
    ensures m !in m.kids
  {
    forall k | k in m.kids
      ensures k != m
    {
      assert k.level == m.level + 1;
    }
  }

  /** The names of the children of a well-formed node are C strings. */
  lemma ChildNamesAreCStrings(K: seq<Node>)
    requires forall x :: x in K ==> Rooted(x)
    ensures AllCStrings(NamesOf(K))
  {
    forall j | 0 <= j < |K|
      ensures CString(NamesOf(K)[j])
    {
      assert K[j] in K;
    }
  }

  /** Splicing a node into a linked list at position k: the new head, the
      sibling of the new node and that of its predecessor are as
      `addNodeSorted` sets them, and the other siblings stay. */
  lemma ChainInsert(head: Node?, K: seq<Node>, sibs: seq<Node?>, k: nat, nn: Node,
                    head': Node?, K': seq<Node>, sibs': seq<Node?>)
    requires Chained(head, K, sibs) && k <= |K| && nn !in K
    requires K' == InsertAt(K, k, nn) && |sibs'| == |K'| && head' == K'[0]
    requires sibs'[k] == (if k < |K| then K[k] else null)
    requires k > 0 ==> sibs'[k - 1] == nn
    requires forall j :: 0 <= j < |K| && j + 1 != k ==> sibs'[if j < k then j else j + 1] == sibs[j]
    ensures Chained(head', K', sibs')
  {
    forall j | 0 <= j < |K'|
      ensures sibs'[j] == (if j + 1 < |K'| then K'[j + 1] else null)
    {
      if j < k - 1 {
        assert sibs'[j] == sibs[j];
      } else if j > k {
        assert sibs'[j] == sibs[j - 1];
      }
    }
    forall a, b | 0 <= a < b < |K'|
      ensures K'[a] != K'[b]
    {
      if a != k && b != k {
        var a', b' := if a < k then a else a - 1, if b < k then b else b - 1;
        assert K'[a] == K[a'] && K'[b] == K[b'];
      }
    }
  }

  /** Unlinking the node at position k: the head or the predecessor's sibling
      skips it, and the other siblings stay. */
  lemma ChainRemove(head: Node?, K: seq<Node>, sibs: seq<Node?>, k: nat,
                    head': Node?, K': seq<Node>, sibs': seq<Node?>)
    requires Chained(head, K, sibs) && k < |K|
    requires K' == RemoveAt(K, k) && |sibs'| == |K'|
    requires head' == (if k == 0 then sibs[0] else head)
    requires k > 0 ==> sibs'[k - 1] == sibs[k]
    requires forall j :: 0 <= j < |K| && j + 1 != k && j != k ==> sibs'[if j < k then j else j - 1] == sibs[j]
    ensures Chained(head', K', sibs')
  {
    forall j | 0 <= j < |K'|
      ensures sibs'[j] == (if j + 1 < |K'| then K'[j + 1] else null)
    {
      if j < k - 1 {
        assert sibs'[j] == sibs[j];
      } else if j >= k {
        assert sibs'[j] == sibs[j + 1];
      }
    }
    forall a, b | 0 <= a < b < |K'|
      ensures K'[a] != K'[b]
    {
      var a', b' := if a < k then a else a + 1, if b < k then b else b + 1;
      assert K'[a] == K[a'] && K'[b] == K[b'];
    }
  }

  /** The names of a spliced list are the spliced names. */
  lemma NamesOfInsertAt(K: seq<Node>, k: nat, nn: Node)
    requires k <= |K|
    ensures NamesOf(InsertAt(K, k, nn)) == InsertAt(NamesOf(K), k, nn.name)
  {
  }

  lemma NamesOfRemoveAt(K: seq<Node>, k: nat)
    requires k < |K|
    ensures NamesOf(RemoveAt(K, k)) == RemoveAt(NamesOf(K), k)
  {
  }

  lemma {:induction false} CardShrinks(T: set<Node>, X: set<Node>, c: Node)
    requires c in T && c in X
    ensures |T - X| < |T|
  {
    var R := T - X;
    assert T == R + (T * X);
    assert R * (T * X) == {};
    assert c in T * X;
  }

  lemma {:induction false} CardSubset(A: set<Node>, B: set<Node>)
    requires A <= B
    ensures |A| <= |B|
  {
    assert B == A + (B - A);
  }

  /** Only the child pointer, the ghost list and the siblings of the children
      enter LocalOk(m): a change elsewhere keeps m well formed. */
  twostate lemma LocalOkKept(m: Node)
    requires old(LocalOk(m)) && unchanged(m`child, m`kids)
    requires forall x :: x in m.kids ==> x.sibling == old(x.sibling)
    ensures LocalOk(m)
  {
    assert Siblings(m.kids) == old(Siblings(m.kids));
  }

  /** Every node of a subtree lies below its top. */
  lemma {:induction false} AllBelow(S: set<Node>, top: Node, x: Node)
    requires Hangs(S, top) && forall m :: m in S ==> Rooted(m)
    requires x in S
    ensures Below(x, top)
    decreases x.level
  {
    if x != top {
      AllBelow(S, top, x.parent);
    }
  }
}
