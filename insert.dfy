/** `addNodeSorted`: creating a file or folder inside a folder, keeping the
    folder's sibling list in ascending case-insensitive order. */
module Insert {
  import opened CaseFold
  import opened Names
  import opened FsTree

  /** What `addNodeSorted` reports: success, or the message it prints. */
  datatype AddOutcome = Added | InvalidName | Duplicate

  /** `addNodeSorted`: refuse an invalid name or a case-insensitive duplicate;
      otherwise create the node and splice it in before the first child whose
      name it does not compare above. `added` is the node created, if any. */
  method AddNodeSorted(parent: Node, name: string, isFile: bool, ghost S: set<Node>, ghost root: Node)
    returns (outcome: AddOutcome, ghost added: Node?)
    requires IsTree(S, root) && parent in S && !parent.isFile && CString(name)
    modifies parent, parent.kids
    ensures outcome == InvalidName <==> !ValidName(name)
    ensures outcome == Duplicate <==>
              ValidName(name) && FirstMatch(NamesOf(old(parent.kids)), name) < |old(parent.kids)|
    ensures outcome != Added ==>
              added == null && unchanged(parent) && forall c :: c in old(parent.kids) ==> unchanged(c)
    ensures outcome == Added ==>
              && added != null && fresh(added)
              && added.name == name && added.isFile == isFile && added.parent == parent
              && added.child == null && added.kids == []
              && parent.kids == InsertAt(old(parent.kids), InsertPos(NamesOf(old(parent.kids)), name), added)
    ensures outcome == Added ==> IsTree(S + {added}, root)
    ensures LocalOk(parent) && parent.sibling == old(parent.sibling)
    ensures forall c :: c in old(parent.kids) ==> c.kids == old(c.kids) && c.child == old(c.child)
  {
    var ok := IsValidName(name);
    if !ok {
      return InvalidName, null;
    }
    var dup := HasMatch(parent, name);
    if dup {
      return Duplicate, null;
    }
    ghost var K := parent.kids;
    var newNode := new Node(name, isFile, parent);
    NotOwnChild(parent);
    Splice(parent, newNode);
    InsertParentOk(parent, K, newNode);
    AddKeepsTree(Site(S, root, parent), newNode);
    return Added, newNode;
  }

  /** The duplicate scan of `addNodeSorted`: walk the sibling list and report
      whether some child's name equals `name` up to case. */
  method HasMatch(parent: Node, name: string) returns (found: bool)
    requires Linked(parent)
    ensures found <==> FirstMatch(NamesOf(parent.kids), name) < |parent.kids|
  {
    var temp := parent.child;
    ghost var i := 0;
    while temp != null
      invariant 0 <= i <= |parent.kids|
      invariant temp == (if i < |parent.kids| then parent.kids[i] else null)
      invariant forall j :: 0 <= j < i ==> CompareCI(NamesOf(parent.kids)[j], name) != 0
      decreases |parent.kids| - i
    {
      if CompareCI(temp.name, name) == 0 {
        assert NamesOf(parent.kids)[i] == temp.name;
        return true;
      }
      assert Siblings(parent.kids)[i] == temp.sibling;
      temp := temp.sibling;
      i := i + 1;
    }
    return false;
  }

  /** The position scan of `addNodeSorted`: from the head, step past every
      child that `name` compares above; `prev` is the last one passed (null
      when none is) and `temp` the child the new node goes before. */
  method InsertionPoint(parent: Node, name: string) returns (prev: Node?, temp: Node?)
    requires Linked(parent)
    ensures var ks, k := parent.kids, InsertPos(NamesOf(parent.kids), name);
            && prev == (if k == 0 then null else ks[k - 1])
            && temp == (if k < |ks| then ks[k] else null)
  {
    temp := parent.child;
    prev := null;
    ghost var i := 0;
    while temp != null && CompareCI(name, temp.name) > 0
      invariant 0 <= i <= |parent.kids|
      invariant temp == (if i < |parent.kids| then parent.kids[i] else null)
      invariant prev == (if i == 0 then null else parent.kids[i - 1])
      invariant forall j :: 0 <= j < i ==> CompareCI(name, NamesOf(parent.kids)[j]) > 0
      decreases |parent.kids| - i
    {
      assert Siblings(parent.kids)[i] == temp.sibling;
      prev := temp;
      temp := temp.sibling;
      i := i + 1;
    }
    assert i < |parent.kids| ==> NamesOf(parent.kids)[i] == temp.name;
    assert i == InsertPos(NamesOf(parent.kids), name);
  }

  /** The second half of `addNodeSorted`: link a new node into the sibling
      list of `parent`, at the head when the list is empty or the name
      compares below the head, and otherwise after the last child whose name
      it compares above. */
  method Splice(parent: Node, nn: Node)
    requires Linked(parent) && parent !in parent.kids
    requires nn.sibling == null && nn != parent && nn !in parent.kids
    requires FirstMatch(NamesOf(parent.kids), nn.name) == |parent.kids|
    modifies parent, nn, parent.kids
    ensures parent.kids == InsertAt(old(parent.kids), InsertPos(NamesOf(old(parent.kids)), nn.name), nn)
    ensures Linked(parent)
    ensures unchanged(parent`sibling) && unchanged(nn`child, nn`kids)
    ensures forall c :: c in old(parent.kids) ==> c.kids == old(c.kids) && c.child == old(c.child)
  {
    if parent.child == null || CompareCI(nn.name, parent.child.name) < 0 {
      LinkAtHead(parent, nn);
    } else {
      CompareAntisymmetric(parent.kids[0].name, nn.name);
      var prev, temp := InsertionPoint(parent, nn.name);
      LinkAfter(parent, nn, prev, temp, InsertPos(NamesOf(parent.kids), nn.name));
    }
  }

  /** The new node becomes the head of the sibling list. */
  method LinkAtHead(parent: Node, nn: Node)
    requires Linked(parent) && parent !in parent.kids
    requires nn.sibling == null && nn != parent && nn !in parent.kids
    modifies parent, nn
    ensures parent.kids == [nn] + old(parent.kids)
    ensures Linked(parent)
    ensures unchanged(parent`sibling) && unchanged(nn`child, nn`kids)
    ensures forall c :: c in old(parent.kids) ==> unchanged(c)
  {
    nn.sibling := parent.child;
    parent.child := nn;
    parent.kids := [nn] + parent.kids;
    LinkedAfterInsert(parent, 0, nn, null);
  }

  /** The new node goes after `prev`, the node at position k - 1, and before
      `temp`, the node at position k (null at the end of the list). */
  method LinkAfter(parent: Node, nn: Node, prev: Node, temp: Node?, ghost k: int)
    requires Linked(parent) && parent !in parent.kids
    requires nn.sibling == null && nn != parent && nn !in parent.kids
    requires 0 < k <= |parent.kids| && prev == parent.kids[k - 1]
    requires temp == (if k < |parent.kids| then parent.kids[k] else null)
    modifies parent, nn, prev
    ensures parent.kids == InsertAt(old(parent.kids), k, nn)
    ensures Linked(parent)
    ensures unchanged(parent`sibling, parent`child) && unchanged(nn`child, nn`kids)
    ensures forall c :: c in old(parent.kids) ==> c.kids == old(c.kids) && c.child == old(c.child)
  {
    prev.sibling := nn;
    nn.sibling := temp;
    parent.kids := InsertAt(parent.kids, k, nn);
    LinkedAfterInsert(parent, k, nn, prev);
  }

  /** The pointers of the parent agree with its new sibling list once the new
      node is spliced in before position k: the head or the predecessor's
      sibling is the new node, whose sibling is the old node at position k,
      and no other sibling pointer has moved. */
  twostate lemma LinkedAfterInsert(parent: Node, new k: int, new nn: Node, new prev: Node?)
    requires old(Linked(parent)) && 0 <= k <= |old(parent.kids)| && nn !in old(parent.kids)
    requires parent.kids == InsertAt(old(parent.kids), k, nn)
    requires prev == (if k == 0 then null else old(parent.kids)[k - 1])
    requires parent.child == (if k == 0 then nn else old(parent.child))
    requires nn.sibling == (if k < |old(parent.kids)| then old(parent.kids)[k] else null)
    requires prev != null ==> prev.sibling == nn
    requires forall x :: x in old(parent.kids) && x != prev ==> x.sibling == old(x.sibling)
    ensures Linked(parent)
  {
    var K := old(parent.kids);
    var sibs := old(Siblings(parent.kids));
    assert Chained(old(parent.child), K, sibs);
    var sibs' := Siblings(parent.kids);
    forall j | 0 <= j < |K| && j + 1 != k
      ensures sibs'[if j < k then j else j + 1] == sibs[j]
    {
      assert K[j] in K;
    }
    ChainInsert(old(parent.child), K, sibs, k, nn, parent.child, parent.kids, sibs');
  }

  /** After the splice, the parent is well formed again: its new child points
      back to it, has a rooted name, and keeps the list strictly ascending. */
  lemma InsertParentOk(parent: Node, K: seq<Node>, nn: Node)
    requires Rooted(parent) && !parent.isFile
    requires forall x :: x in K ==> x.parent == parent && Rooted(x)
    requires Ascending(NamesOf(K)) && FirstMatch(NamesOf(K), nn.name) == |K|
    requires nn.parent == parent && Rooted(nn)
    requires parent.kids == InsertAt(K, InsertPos(NamesOf(K), nn.name), nn) && Linked(parent)
    ensures LocalOk(parent)
  {
    ChildNamesAreCStrings(K);
    InsertKeepsAscending(NamesOf(K), nn.name);
    NamesOfInsertAt(K, InsertPos(NamesOf(K), nn.name), nn);
  }

  /** Where a node is added: the tree S with its root, and the folder of S
      that receives the node. */
  datatype Site = Site(S: set<Node>, root: Node, parent: Node)

  /** The effect of a successful `addNodeSorted` on a well-formed set of
      nodes S: the parent is linked and ordered again with the new node
      spliced into its list, the new node is an empty leaf below it that no
      node of S has for parent, and no other node of S has changed its
      children or (outside the parent's list) its sibling. */
  twostate predicate Grown(at: Site, new added: Node)
    reads at.S, added
  {
    var S, parent := at.S, at.parent;
    && old(Wf(S)) && parent in S && added !in S
    && (forall m :: m in S ==> m.parent != added)
    && parent.kids == InsertAt(old(parent.kids), InsertPos(NamesOf(old(parent.kids)), added.name), added)
    && LocalOk(parent)
    && added.parent == parent && added.child == null && added.kids == []
    && (forall m :: m in S && m != parent ==> m.kids == old(m.kids) && m.child == old(m.child))
    && (forall m :: m in S && m.parent != parent ==> m.sibling == old(m.sibling))
  }

  /** A successful `addNodeSorted` keeps the whole directory tree well
      formed, with the new node in it. */
  twostate lemma AddKeepsTree(at: Site, new added: Node)
    requires old(IsTree(at.S, at.root)) && Grown(at, added)
    ensures IsTree(at.S + {added}, at.root)
  {
    GrownLocalOk(at, added);
    GrownLinks(at, added);
    assert LocalOk(added);
    assert forall m :: m in at.S + {added} ==> LocalOk(m);
  }

  /** Every node of S stays well formed. */
  twostate lemma GrownLocalOk(at: Site, new added: Node)
    requires Grown(at, added)
    ensures forall m :: m in at.S ==> LocalOk(m)
  {
    var S, parent := at.S, at.parent;
    forall m | m in S && m != parent
      ensures LocalOk(m)
    {
      assert old(LocalOk(m));
      assert forall x :: x in m.kids ==> x in S && x.parent == m;
      LocalOkKept(m);
    }
  }

  /** Children stay inside S plus the new node, and every node of it is
      still in the list of its parent. */
  twostate lemma GrownLinks(at: Site, new added: Node)
    requires Grown(at, added)
    ensures forall m, c :: m in at.S + {added} && c in m.kids ==> c in at.S + {added}
    ensures forall m :: m in at.S + {added} && m.parent != null && m.parent in at.S + {added} ==>
              m in m.parent.kids
  {
    var S, parent := at.S, at.parent;
    var K := old(parent.kids);
    var k := InsertPos(NamesOf(K), added.name);
    assert added == parent.kids[k];
    forall m | m in K
      ensures m in parent.kids
    {
      var i :| 0 <= i < |K| && K[i] == m;
      assert parent.kids[if i < k then i else i + 1] == m;
    }
    forall m, c | m in S + {added} && c in m.kids
      ensures c in S + {added}
    {
      if m != added && m != parent {
        assert c in old(m.kids);
      } else if m == parent && c != added {
        var j :| 0 <= j < |parent.kids| && parent.kids[j] == c;
        assert c == K[if j < k then j else j - 1];
      }
    }
    forall m | m in S && m.parent != null && m.parent in S
      ensures m in m.parent.kids
    {
      var q := m.parent;
      assert old(m in q.kids);
      if q != parent {
        assert q.kids == old(q.kids);
      }
    }
  }
}
