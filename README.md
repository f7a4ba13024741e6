# A verified model of the file system simulator's directory tree

`fs_simulator.c` keeps an in-memory directory tree. Every `struct Node` has a
name, a file/folder flag, a `parent` pointer, a `child` pointer to its first
child and a `sibling` pointer to the next node of its parent's list. The
children of a folder form a singly linked sibling list that `addNodeSorted`
keeps in strictly ascending case-insensitive order. The commands `mkdir`,
`touch`, `rm`, `cd`, `ls` and `tree` and the prompt act on this tree.

The model has seven modules:

- `CaseFold` (casefold.dfy): `strcasecmp_custom` as the function `CompareCI`, and the loop as a method proved equal to it. The lemmas cover when it returns 0, its sign at the first difference, the prefix case, antisymmetry and transitivity.
- `Names` (names.dfy): `isValidName`, and the sibling list seen as a list of names: the first case-insensitive match, the sorted insertion point, splicing in at a position and unlinking at a position. It proves that insertion and removal keep a list strictly ascending. It also holds the `rm` guard.
- `FsTree` (fstree.dfy): the `Node` class. `name`, `isFile` and `parent` are constants, because only `createNode` writes them; `child` and `sibling` are mutable. A ghost `kids` sequence is the sibling list in link order, and a ghost `level` is the node's depth.
  - `Linked(m)` says that the `child`/`sibling` pointers realise `m.kids`.
  - `LocalOk(m)` adds: the children point back to `m`, a file has no children, and the names are strictly ascending.
  - `Tree(S, top)` and `IsTree(S, root)` say that a set of nodes is a well-formed tree.
- `Insert` (insert.dfy): `addNodeSorted` as imperative code on the heap: the duplicate scan, the head case, the position scan and the two pointer splices.
- `Remove` (remove.dfy): `deleteNode` as imperative code on the heap: the search, the confirmation, the unlinking and the teardown loop that deletes the first child of the removed node until it has none.
- `Navigate` (navigate.dfy): `changeDir`, `list` and `getFullPath`.
- `Path` (path.dfy) and `Display` (display.dfy): pure definitions.
  - `Path`: how paths are joined and read back.
  - `Display`: the `displayTree` recursion over a value tree whose children are kept in sibling order, with a pre-order reference definition.

Conventions:

- The answer that `deleteNode` reads with `scanf(" %c")` is the parameter `answer`.
- `addNodeSorted`'s printed messages are the outcome `InvalidName` or `Duplicate`.
- `deleteNode` keeps its single boolean result. It is false both for "not found" and for "declined".

## Model

| member | source | states |
|---|---|---|
| CaseFold.CaseCompare | fs_simulator.c:15-25 | the loop returns the lower-cased difference at the first position where the lower-cased characters differ, else the difference of the characters where the shorter string ends (its terminator counts as 0) |
| CaseFold.CompareZeroIff | fs_simulator.c:15-25 | on C strings the result is 0 exactly when both strings have the same length and are equal once lower-cased |
| CaseFold.CompareAtFirstDifference | fs_simulator.c:16-20 | at the first position where the lower-cased characters differ, the result is the difference of those lower-cased characters |
| CaseFold.ComparePrefix | fs_simulator.c:24 | a proper prefix (up to case) compares as smaller: the result is minus the first extra character |
| CaseFold.CompareAntisymmetric | fs_simulator.c:15-25 | swapping the arguments negates the result |
| CaseFold.CompareReflexive | fs_simulator.c:15-25 | a string compares equal to itself |
| CaseFold.CompareTransitive | fs_simulator.c:15-25 | "compares below" is transitive on C strings, so it is a strict order for sibling names |
| Names.IsValidName | fs_simulator.c:38-48 | true exactly when the name is non-empty and holds neither '/' nor '\\' |
| Names.FirstMatch | fs_simulator.c:60-67 | the position of the first name equal up to case, with no match before it, or the length when there is none |
| Names.InsertPos | fs_simulator.c:76-81 | the new name compares above every name before the position, and not above the name at it |
| Names.InsertAt | fs_simulator.c:70-84 | the list grows by one: the new element sits at the position, and the others keep their order around it |
| Names.RemoveAt | fs_simulator.c:135-138 | the list shrinks by one: the element at the position is gone, and the others keep their order |
| Names.RemoveInserted | fs_simulator.c:50-145 | unlinking a spliced-in element gives back the original list |
| Names.AscendingIsCaseUnique | fs_simulator.c:60-67 | a strictly ascending list of C strings has no two names equal up to case |
| Names.InsertKeepsAscending | fs_simulator.c:69-84 | a name with no match, spliced in at its insertion point, keeps the list strictly ascending |
| Names.RemoveKeepsAscending | fs_simulator.c:135-138 | unlinking any element keeps the list strictly ascending |
| Names.AscendingMatchIsUnique | fs_simulator.c:111-121 | in a strictly ascending list, a name equal up to case can only be at the first match |
| Names.RootDeleteGuard | fs_simulator.c:250 | `rm` is refused exactly when the current folder's name and the target both lower-case to "root" |
| Names.GuardFiresInNestedRoot | fs_simulator.c:250 | the guard also fires for a folder named "root" that is not the root directory |
| FsTree.Node.constructor | fs_simulator.c:27-36 | a new node has the given name, kind and parent, no child and no sibling, and sits one level below its parent |
| FsTree.ChainInsert | fs_simulator.c:70-84 | the pointers realise the spliced list when the head or the predecessor points at the new node, the new node points at the old node at that position, and no other sibling pointer moves |
| FsTree.ChainRemove | fs_simulator.c:135-138 | the pointers realise the shortened list when the head or the predecessor skips the removed node and no other sibling pointer moves |
| Insert.AddNodeSorted | fs_simulator.c:50-85 | invalid name gives InvalidName; a case-insensitive duplicate gives Duplicate; either way nothing changes. Otherwise exactly one fresh empty node with the given name, kind and parent is spliced in at the insertion point, the other children keep their order, and the whole directory tree stays a well-formed tree with strictly ascending sibling lists |
| Insert.HasMatch | fs_simulator.c:60-67 | the scan reports a duplicate exactly when some child's name equals the new name up to case |
| Insert.InsertionPoint | fs_simulator.c:76-81 | the scan stops at the insertion point: `temp` is the child there (null at the end) and `prev` the child before it (null at the head) |
| Insert.Splice | fs_simulator.c:69-84 | the new node lands at the insertion point and the parent is linked again; on the second path `prev` is never null, because the head test and the duplicate scan put the name above the head |
| Insert.LinkAtHead | fs_simulator.c:70-74 | the new node becomes the head and points at the old head; the old children are untouched |
| Insert.LinkAfter | fs_simulator.c:83-84 | the new node goes between `prev` and `temp`, and the parent is linked again |
| Insert.LinkedAfterInsert | fs_simulator.c:70-84 | after either splice, the parent's pointers realise the list with the new node inserted |
| Insert.InsertParentOk | fs_simulator.c:69-84 | after the splice the parent's list is strictly ascending again and its children point back to it |
| Insert.AddKeepsTree | fs_simulator.c:50-85 | a successful insertion leaves the tree plus the new node a well-formed directory tree |
| Remove.DeleteNode | fs_simulator.c:104-145 | false when the parent is null, when no child matches, or when the match is a folder with children and the answer is neither 'y' nor 'Y', and then nothing changes. Otherwise the list loses exactly the first match and keeps its order, what is left is a well-formed tree, and every node of the removed subtree has no children left |
| Remove.FindChild | fs_simulator.c:111-121 | the search stops at the first child equal up to case (null when there is none), with `prev` the child before it |
| Remove.Detach | fs_simulator.c:135-144 | unlinking and then tearing down the found child leaves the rest a well-formed tree and the subtree emptied |
| Remove.Cut | fs_simulator.c:135-138 | unlinking the child at position k removes exactly that position and splits the tree into two well-formed trees: the rest and the child's subtree |
| Remove.Teardown | fs_simulator.c:140-141 | repeatedly deleting the first child (confirmed) terminates with every node of the subtree childless |
| Remove.OnlyTop | fs_simulator.c:140-141 | a tree whose top has no children is the top alone, so the teardown loop has removed everything below |
| Remove.UnlinkHead | fs_simulator.c:135-136 | the head is unlinked and the parent's child pointer moves to its sibling |
| Remove.UnlinkAfter | fs_simulator.c:137-138 | the predecessor's sibling pointer skips the removed child |
| Remove.LinkedAfterRemove | fs_simulator.c:135-138 | after either unlinking, the parent's pointers realise the list without the removed child |
| Remove.SplitOff | fs_simulator.c:135-141 | once the child is unlinked, the rest of the tree and the child's subtree are each well-formed trees |
| Remove.RemovedOnce | fs_simulator.c:135-138 | in a list without repetitions, unlinking position k removes that node and no other |
| Remove.RemoveParentOk | fs_simulator.c:135-138 | after the unlinking the parent's list is strictly ascending and its children point back to it |
| Remove.RootNeverDeleted | fs_simulator.c:104-145 | in a tree, the root is never among the nodes a deletion removes |
| Navigate.FirstFolder | fs_simulator.c:182-186 | the position of the first child folder equal up to case, with every earlier child a file or a different name |
| Navigate.ChangeDir | fs_simulator.c:171-190 | ".." (exact) goes to the parent, or stays at the root. Any other name goes to the first child folder equal up to case, else stays. Nothing is modified |
| Navigate.CdMatchesUniqueChild | fs_simulator.c:182-186 | in a well-formed folder, `cd` enters the only child with that name when it is a folder, and stays when it is a file |
| Navigate.CdStaysInTree | fs_simulator.c:171-190 | from a folder of the tree, `cd` always lands on a folder of the tree |
| Navigate.List | fs_simulator.c:155-169 | the entries are the children in sibling order with their kind and name; no entries is the "(empty)" case |
| Navigate.ListIsSorted | fs_simulator.c:155-169 | the names `ls` shows are strictly ascending and unique up to case |
| Navigate.FullPathIsJoin | fs_simulator.c:192-199 | the path is "/" plus a name for each node from the root down, one per level, ending with the node's own name |
| Navigate.FullPathReadsBack | fs_simulator.c:192-199 | splitting the path at its slashes gives back the names from the root down |
| Navigate.RootPath | fs_simulator.c:212 | at the root named "Root" the prompt path is "/Root" |
| Path.JoinPathShape | fs_simulator.c:196-198 | a non-empty chain gives a path that starts with "/" |
| Path.SplitJoin | fs_simulator.c:192-199 | names without '/' joined into a path are read back unchanged |
| Display.DisplayChainIsPreorder | fs_simulator.c:87-102 | the child-then-sibling recursion over a chain of siblings emits the pre-order listing of their subtrees |
| Display.DisplayTreeIsPreorder | fs_simulator.c:87-102 | `displayTree(root, 0)` emits the pre-order listing: each node at its depth, then its children's subtrees in sibling order |
| Display.PreorderLength | fs_simulator.c:87-102 | every node is printed exactly once: a tree of n nodes gives n lines |
| Display.PreorderLevels | fs_simulator.c:87-102 | a node's line comes first and every line of its subtree is deeper |

## Left out

- The interactive loop of `main` is console I/O and is not modelled. This covers command reading, the banner and prompt printing, and the dispatch. Only the `rm` guard is modelled, as a predicate.
- The printed messages are not modelled. The model returns outcomes, entries and lines in their place.
- `malloc`, `free` and `freeTree` are not modelled: Dafny's heap has no deallocation. The deleted subtree is shown emptied, not freed.
- Fixed-size buffers are not modelled. Names and paths are unbounded strings, so overflow of `name[50]`, `command[20]` and `path[300]` through `strcpy`, `strcat` and `scanf("%s")` is out of the model.
- `tolower` is the "C" locale ASCII mapping on code points. Signed `char` values above 127 are not modelled.
- Remove.Teardown: nested deletions are modelled with the answer 'y'. In the C code every nested non-empty folder asks again, and a "no" there makes the `while (temp->child != NULL)` loop run forever. That path is not modelled.
- Display.DisplayTreeIsPreorder: `displayTree` is modelled over a value tree whose children are the sibling list in order. The correspondence between that value and the heap nodes is not proved.
- Insert.AddNodeSorted and Remove.DeleteNode require the whole tree to be well formed (`IsTree`, `Tree`). `main` only ever calls them on the current folder of the one tree, which is a folder, and names read with `scanf("%s")` hold no NUL.
