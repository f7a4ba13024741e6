/** `deleteNode`: unlinking a child of a folder, after confirmation when it is
    a folder that is not empty, and then tearing down its subtree. */
module Remove {
  import opened CaseFold
  import opened Names
  import opened FsTree

  /** `deleteNode(parent, name)`, with `answer` the character the user types
      when asked to confirm the deletion of a folder that is not empty. It
      reports whether a node was deleted: nothing happens when `parent` is
      null, no child matches `name` up to case, or the user declines. On
      success the first matching child is unlinked, the rest of the tree S is
      a well-formed tree again, and every node below the deleted one (which
      `deleteNode` goes on to free) has had its children taken away. */
  method DeleteNode(parent: Node?, name: string, answer: char, ghost S: set<Node>, ghost top: Node)
    returns (deleted: bool)
    requires parent != null ==> Tree(S, top) && parent in S
    modifies S
    decreases |S|, 1
    ensures parent == null ==> !deleted
    ensures !deleted ==> unchanged(S)
    ensures parent != null ==>
              var K := old(parent.kids);
              var k := FirstMatch(NamesOf(K), name);
              && (deleted <==> k < |K| && (K[k].isFile || old(K[k].child) == null || answer == 'y' || answer == 'Y'))
              && (deleted ==>
                    && parent.kids == RemoveAt(K, k)
                    && Tree(S - Sub(K[k], S), top)
                    && (forall x :: x in Sub(K[k], S) ==> x.child == null && x.kids == [])
                    && (forall x :: x in S - Sub(K[k], S) && x != parent ==>
                          x.kids == old(x.kids) && x.child == old(x.child))
                    && (forall x :: x in S - Sub(K[k], S) && x.parent != parent ==> x.sibling == old(x.sibling)))
  {
    if parent == null || parent.child == null {
      return false;
    }
    var prev, temp := FindChild(parent, name);
    if temp == null {
      return false;
    }
    if !temp.isFile && temp.child != null {
      if answer != 'y' && answer != 'Y' {
        return false;
      }
    }
    Detach(parent, prev, temp, FirstMatch(NamesOf(parent.kids), name), S, top);
    return true;
  }

  /** What `deleteNode` does once it goes ahead: unlink `temp`, the child at
      position k, then tear down its subtree. */
  method Detach(parent: Node, prev: Node?, temp: Node, ghost k: int, ghost S: set<Node>, ghost top: Node)
    requires Tree(S, top) && parent in S
    requires 0 <= k < |parent.kids| && temp == parent.kids[k]
    requires prev == (if k == 0 then null else parent.kids[k - 1])
    modifies S
    decreases |S|, 0
    ensures parent.kids == RemoveAt(old(parent.kids), k)
    ensures Tree(S - Sub(temp, S), top)
    ensures forall x :: x in Sub(temp, S) ==> x.child == null && x.kids == []
    ensures forall x :: x in S - Sub(temp, S) && x != parent ==> x.kids == old(x.kids) && x.child == old(x.child)
    ensures forall x :: x in S - Sub(temp, S) && x.parent != parent ==> x.sibling == old(x.sibling)
  {
    ghost var D := Sub(temp, S);
    Cut(parent, prev, temp, k, S, top);
    assert parent in S - D;
    CardSubset(D, S - {parent});
    Teardown(temp, D);
  }

  /** The unlinking step of `deleteNode`: `temp`, the child at position k, is
      cut out of the sibling list, which leaves two well-formed trees. */
  method Cut(parent: Node, prev: Node?, temp: Node, ghost k: int, ghost S: set<Node>, ghost top: Node)
    requires Tree(S, top) && parent in S
    requires 0 <= k < |parent.kids| && temp == parent.kids[k]
    requires prev == (if k == 0 then null else parent.kids[k - 1])
    modifies parent, prev
    ensures parent.kids == RemoveAt(old(parent.kids), k)
    ensures Tree(S - Sub(temp, S), top) && Tree(Sub(temp, S), temp)
    ensures forall x :: x in S && x != parent ==> x.kids == old(x.kids) && x.child == old(x.child)
    ensures forall x :: x in S && x.parent != parent ==> x.sibling == old(x.sibling)
  {
    NotOwnChild(parent);
    if prev == null {
      UnlinkHead(parent, temp);
    } else {
      UnlinkAfter(parent, prev, temp, k);
    }
    SplitOff(Removal(S, top, parent, k, temp));
  }

  /** The teardown loop of `deleteNode`: while the unlinked node has a child,
      delete that child (confirmed) from it. Every node of its subtree ends
      with no children. */
  method Teardown(node: Node, ghost D: set<Node>)
    requires Tree(D, node)
    modifies D
    decreases |D|, 2
    ensures forall x :: x in D ==> x.child == null && x.kids == []
  {
    ghost var T := D;
    while node.child != null
      invariant T <= D && Tree(T, node)
      invariant forall x :: x in D - T ==> x.child == null && x.kids == []
      decreases |T|
    {
      var c := node.child;
      assert c == node.kids[0] && NamesOf(node.kids)[0] == c.name;
      CompareReflexive(c.name);
      CardSubset(T, D);
      var ok := DeleteNode(node, c.name, 'y', T, node);
      CardShrinks(T, Sub(c, T), c);
      T := T - Sub(c, T);
    }
    OnlyTop(T, node);
  }

  /** A tree whose top has no children holds nothing else. */
  lemma OnlyTop(T: set<Node>, top: Node)
    requires Tree(T, top) && top.kids == []
    ensures T == {top}
  {
    forall x | x in T
      ensures x == top
    {
      TopHasChildren(T, top, x);
    }
  }

  /** Any node of a tree other than its top makes the top a parent. */
  lemma {:induction false} TopHasChildren(T: set<Node>, top: Node, x: Node)
    requires Tree(T, top) && x in T
    ensures x == top || top.kids != []
    decreases x.level
  {
    if x != top {
      assert LocalOk(x) && x in x.parent.kids;
      if x.parent != top {
        TopHasChildren(T, top, x.parent);
      }
    }
  }

  /** The search of `deleteNode`: walk the sibling list until a child's name
      equals `name` up to case. `temp` is that child (null when there is
      none) and `prev` the child before it (null when it is the head). */
  method FindChild(parent: Node, name: string) returns (prev: Node?, temp: Node?)
    requires Linked(parent)
    ensures var ks, k := parent.kids, FirstMatch(NamesOf(parent.kids), name);
            && temp == (if k < |ks| then ks[k] else null)
            && (k < |ks| ==> prev == (if k == 0 then null else ks[k - 1]))
  {
    temp := parent.child;
    prev := null;
    ghost var i := 0;
    while temp != null
      invariant 0 <= i <= |parent.kids|
      invariant temp == (if i < |parent.kids| then parent.kids[i] else null)
      invariant prev == (if i == 0 then null else parent.kids[i - 1])
      invariant forall j :: 0 <= j < i ==> CompareCI(NamesOf(parent.kids)[j], name) != 0
      decreases |parent.kids| - i
    {
      if CompareCI(temp.name, name) == 0 {
        break;
      }
      assert Siblings(parent.kids)[i] == temp.sibling;
      prev := temp;
      temp := temp.sibling;
      i := i + 1;
    }
    assert i < |parent.kids| ==> NamesOf(parent.kids)[i] == temp.name;
    assert i == FirstMatch(NamesOf(parent.kids), name);
  }

  /** The head of the sibling list is unlinked: the parent's child pointer
      moves to its sibling. */
  method UnlinkHead(parent: Node, temp: Node)
    requires Linked(parent) && parent !in parent.kids
    requires parent.kids != [] && temp == parent.kids[0]
    modifies parent
    ensures parent.kids == RemoveAt(old(parent.kids), 0)
    ensures Linked(parent) && unchanged(parent`sibling)
  {
    parent.child := temp.sibling;
    parent.kids := parent.kids[1..];
    LinkedAfterRemove(parent, 0, null);
  }

  /** The child at position k is unlinked: the sibling pointer of `prev`, the
      child before it, moves to the sibling of `temp`. */
  method UnlinkAfter(parent: Node, prev: Node, temp: Node, ghost k: int)
    requires Linked(parent) && parent !in parent.kids
    requires 0 < k < |parent.kids| && prev == parent.kids[k - 1] && temp == parent.kids[k]
    modifies parent, prev
    ensures parent.kids == RemoveAt(old(parent.kids), k)
    ensures Linked(parent) && unchanged(parent`sibling, parent`child) && unchanged(prev`child, prev`kids)
  {
    prev.sibling := temp.sibling;
    parent.kids := RemoveAt(parent.kids, k);
    LinkedAfterRemove(parent, k, prev);
  }

  /** The pointers of the parent agree with its shortened sibling list once
      the child at position k is unlinked: the head or the predecessor's
      sibling skips it, and no other sibling pointer has moved. */
  twostate lemma LinkedAfterRemove(parent: Node, new k: int, new prev: Node?)
    requires old(Linked(parent)) && 0 <= k < |old(parent.kids)|
    requires parent.kids == RemoveAt(old(parent.kids), k)
    requires prev == (if k == 0 then null else old(parent.kids)[k - 1])
    requires parent.child == (if k == 0 then old(Siblings(parent.kids))[0] else old(parent.child))
    requires prev != null ==> prev.sibling == old(Siblings(parent.kids))[k]
    requires forall x :: x in old(parent.kids) && x != prev ==> x.sibling == old(x.sibling)
    ensures Linked(parent)
  {
    var K := old(parent.kids);
    var sibs := old(Siblings(parent.kids));
    assert Chained(old(parent.child), K, sibs);
    var sibs' := Siblings(parent.kids);
    forall j | 0 <= j < |K| && j + 1 != k && j != k
      ensures sibs'[if j < k then j else j - 1] == sibs[j]
    {
      assert K[j] in K;
    }
    ChainRemove(old(parent.child), K, sibs, k, parent.child, parent.kids, sibs');
  }

  /** What one unlinking step touched: the tree S with top node `top`, the
      folder `parent` of S, and `target`, its child at position k. */
  datatype Removal = Removal(S: set<Node>, top: Node, parent: Node, k: nat, target: Node)

  /** Once the target is unlinked, S falls apart into two well-formed trees:
      the rest of S, still hanging from its top, and the subtree of the
      target, hanging from the target. */
  twostate lemma SplitOff(r: Removal)
    requires Unlinked(r)
    ensures Tree(r.S - Sub(r.target, r.S), r.top)
    ensures Tree(Sub(r.target, r.S), r.target)
  {
    AllLocalOk(r);
    LinksKept(r);
    Parts(r.S, r.top, r.parent, r.target);
  }

  /** The state right after the unlinking: S was a tree, `target` was the
      child of `parent` at position k and is now cut out of its list, the
      parent is linked again, and nothing else has moved except sibling
      pointers among the children of `parent`. */
  twostate predicate Unlinked(r: Removal)
    reads r.S
  {
    && old(Tree(r.S, r.top)) && r.parent in r.S
    && r.k < |old(r.parent.kids)| && r.target == old(r.parent.kids)[r.k]
    && r.parent.kids == RemoveAt(old(r.parent.kids), r.k) && Linked(r.parent)
    && (forall x :: x in r.S && x != r.parent ==> x.kids == old(x.kids) && x.child == old(x.child))
    && (forall x :: x in r.S && x.parent != r.parent ==> x.sibling == old(x.sibling))
  }

  /** Children stay inside S and their parent links still agree with the
      lists that hold them. */
  twostate lemma LinksKept(r: Removal)
    requires Unlinked(r)
    ensures forall m, c :: m in r.S && c in m.kids ==> c in r.S
    ensures forall m :: m in r.S && m.parent != null && m.parent in r.S && m.parent != r.parent ==>
              m in m.parent.kids
    ensures forall m :: m in r.S && m.parent == r.parent && m != r.target ==> m in r.parent.kids
    ensures r.target !in r.parent.kids
  {
    assert old(Linked(r.parent));
    RemovedOnce(old(r.parent.kids), r.k);
    forall m, c | m in r.S && c in m.kids
      ensures c in r.S
    {
      assert c in old(m.kids);
    }
    forall m | m in r.S && m.parent != null && m.parent in r.S && m.parent != r.parent
      ensures m in m.parent.kids
    {
      var q := m.parent;
      assert old(m in q.kids) && q.kids == old(q.kids);
    }
  }

  /** Cutting position k out of a list without repetitions removes exactly
      the element at k. */
  lemma RemovedOnce(K: seq<Node>, k: nat)
    requires k < |K| && forall a, b :: 0 <= a < b < |K| ==> K[a] != K[b]
    ensures K[k] !in RemoveAt(K, k)
    ensures forall m :: m in K && m != K[k] ==> m in RemoveAt(K, k)
  {
    var R := RemoveAt(K, k);
    forall m | m in K && m != K[k]
      ensures m in R
    {
      var i :| 0 <= i < |K| && K[i] == m;
      assert R[if i < k then i else i - 1] == m;
    }
  }

  /** Every node of S is well formed once the target is unlinked: the parent
      keeps its order, and every other node keeps its children and their
      sibling pointers. */
  twostate lemma AllLocalOk(r: Removal)
    requires Unlinked(r)
    ensures forall m :: m in r.S ==> LocalOk(m)
  {
    forall m | m in r.S
      ensures LocalOk(m)
    {
      assert old(LocalOk(m));
      if m == r.parent {
        RemoveParentOk(m, old(m.kids), r.k);
      } else {
        assert forall x :: x in m.kids ==> x in r.S && x.parent == m;
        LocalOkKept(m);
      }
    }
  }

  /** After the unlinking, the parent is well formed again. */
  lemma RemoveParentOk(parent: Node, K: seq<Node>, k: nat)
    requires Rooted(parent) && (parent.isFile ==> K == [])
    requires forall x :: x in K ==> x.parent == parent && Rooted(x)
    requires Ascending(NamesOf(K)) && k < |K|
    requires parent.kids == RemoveAt(K, k) && Linked(parent)
    ensures LocalOk(parent)
  {
    RemoveKeepsAscending(NamesOf(K), k);
    NamesOfRemoveAt(K, k);
    assert forall x :: x in parent.kids ==> x in K;
  }

  /** The set reasoning of SplitOff, in the current state only: the nodes
      below the target and the others each form a tree. */
  lemma Parts(S: set<Node>, top: Node, p: Node, t: Node)
    requires Hangs(S, top) && p in S && t in S && t.parent == p
    requires forall m :: m in S ==> LocalOk(m)
    requires forall m, c :: m in S && c in m.kids ==> c in S
    requires forall m :: m in S && m.parent != null && m.parent in S && m.parent != p ==> m in m.parent.kids
    requires forall m :: m in S && m.parent == p && m != t ==> m in p.kids
    requires t !in p.kids
    ensures Tree(S - Sub(t, S), top)
    ensures Tree(Sub(t, S), t)
  {
    var D := Sub(t, S);
    assert t in D;
    assert forall m :: m in S ==> Rooted(m);
    AllBelow(S, top, p);
    BelowLevel(p, top);
    assert p !in D by {
      if p in D {
        BelowLevel(p, t);
      }
    }
    assert top !in D by {
      if top in D {
        BelowLevel(top, t);
      }
    }
    forall m | m in S && m != top && m.parent in D
      ensures m in D
    {
    }
    forall m, c | m in D && c in m.kids
      ensures c in D
    {
    }
  }

  /** `deleteNode` only ever takes away a child of `parent` and the nodes below
      it, so the root of the tree is never among them, whatever the names:
      the root survives every deletion without help from the `rm` guard. */
  lemma RootNeverDeleted(S: set<Node>, root: Node, parent: Node, k: nat)
    requires IsTree(S, root) && parent in S && k < |parent.kids|
    ensures root !in Sub(parent.kids[k], S)
  {
    var t := parent.kids[k];
    assert LocalOk(parent) && t in parent.kids;
    assert Rooted(root) && Rooted(t);
    if root in Sub(t, S) {
      BelowLevel(root, t);
    }
  }
}
