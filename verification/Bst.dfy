/** The pointer-based search tree: nodes on the heap, changed in place.
    Every method carries the tree it works on as a ghost value; Represents ties the two. */
module Bst {
  import opened Messages
  import opened OrderedMap
  import opened SearchTree
  import Printing

  ghost function LinkOf(p: Node?): Link<Node> {
    if p == null then Null else To(p)
  }

  class Node {
    var key: nat
    var value: MessageFormat
    var left: Node?
    var right: Node?

    constructor (key: nat, value: MessageFormat)
      ensures this.key == key && this.value == value && left == null && right == null
    {
      this.key, this.value, left, right := key, value, null, null;
    }

    ghost function Fields(): Fields<Node, MessageFormat>
      reads this
    {
      SearchTree.Fields(key, value, LinkOf(left), LinkOf(right))
    }
  }

  type HeapTree = Tree<Node, MessageFormat>

  /** The pointer structure reachable from node is exactly t, with no object reached twice. */
  ghost predicate Represents(node: Node?, t: HeapTree)
    reads Nodes(t)
  {
    match t
    case Leaf => node == null
    case Branch(l, n, k, v, r) =>
      && node == n && n.key == k && n.value == v
      && n !in Nodes(l) && n !in Nodes(r) && Nodes(l) !! Nodes(r)
      && Represents(n.left, l) && Represents(n.right, r)
  }

  lemma {:induction false} RepresentsUnshared(node: Node?, t: HeapTree)
    requires Represents(node, t)
    ensures Unshared(t)
  {
    match t
    case Leaf =>
    case Branch(l, n, _, _, r) =>
      RepresentsUnshared(n.left, l);
      RepresentsUnshared(n.right, r);
  }

  lemma {:induction false} NodesAllocated(t: HeapTree)
    ensures forall n | n in Nodes(t) :: allocated(n)
  {
    match t
    case Leaf =>
    case Branch(l, _, _, _, r) =>
      NodesAllocated(l);
      NodesAllocated(r);
  }

  /** Which objects a pointer can reach is settled by the heap: it represents at most one tree. */
  lemma {:induction false} RepresentsUnique(node: Node?, t: HeapTree, u: HeapTree)
    requires Represents(node, t) && Represents(node, u)
    ensures t == u
  {
    match t
    case Leaf =>
    case Branch(l, n, _, _, r) =>
      RepresentsUnique(n.left, l, u.left);
      RepresentsUnique(n.right, r, u.right);
  }

  function Search(root: Node?, key: nat, ghost t: HeapTree): (found: Node?)
    requires Represents(root, t) && Sorted(t)
    reads Nodes(t)
    ensures found == null <==> key !in ToMap(t)
    ensures found != null ==> found in Nodes(t) && found.key == key && found.value == ToMap(t)[key]
    decreases t
  {
    if root == null || root.key == key then
      root
    else if root.key < key then
      Search(root.right, key, t.right)
    else
      Search(root.left, key, t.left)
  }

  // ------------------------------------------------------------ what a method does to single nodes

  lemma {:induction false} FieldsOnHeap(node: Node?, t: HeapTree, n: Node)
    requires Represents(node, t) && n in Nodes(t)
    ensures FieldsAt(t, n) == n.Fields()
  {
    if n == node {
    } else if n in Nodes(t.left) {
      FieldsOnHeap(node.left, t.left, n);
    } else {
      FieldsOnHeap(node.right, t.right, n);
    }
  }

  lemma AllFieldsOnHeap(node: Node?, t: HeapTree)
    requires Represents(node, t)
    ensures forall n | n in Nodes(t) :: FieldsAt(t, n) == n.Fields()
  {
    forall n | n in Nodes(t) ensures FieldsAt(t, n) == n.Fields() {
      FieldsOnHeap(node, t, n);
    }
  }

  /** In terms of trees, what insertion does to the nodes there were. */
  lemma InsertKeepsFields(t: HeapTree, key: nat, msg: MessageFormat, made: Node)
    requires Sorted(t) && Unshared(t) && (key !in Keys(t) ==> made !in Nodes(t))
    ensures var u := SearchTree.Insert(t, key, msg, made);
            && (forall n | n in Nodes(t) :: n in Nodes(u) && Kept(FieldsAt(t, n), FieldsAt(u, n)))
            && (key !in Keys(t) ==> made in Nodes(u) && FieldsAt(u, made) == Fields(key, msg, Null, Null))
  {
    if key in Keys(t) {
      InsertKeys(t, key, msg, made);
    } else {
      InsertAddsALeaf(t, key, msg, made, made);
      forall n | n in Nodes(t) ensures n in Nodes(SearchTree.Insert(t, key, msg, made))
                                       && Kept(FieldsAt(t, n), FieldsAt(SearchTree.Insert(t, key, msg, made), n))
      {
        InsertAddsALeaf(t, key, msg, made, n);
      }
    }
  }

  /** Inserts (key, msg) below node. The object made is fresh when the key is new; it has no children
      and is hung into an empty place, so that every other node keeps its entry and its children. */
  method Insert(node: Node?, key: nat, msg: MessageFormat, ghost t: HeapTree)
    returns (r: Node, ghost made: Node)
    requires Represents(node, t) && Sorted(t)
    modifies Nodes(t)
    ensures key !in Keys(t) ==> fresh(made)
    ensures Represents(r, SearchTree.Insert(t, key, msg, made))
    ensures node != null ==> r == node
    ensures forall n: Node | old(allocated(n)) && n in Nodes(t) :: Kept(old(n.Fields()), n.Fields())
    ensures key !in Keys(t) ==> made.key == key && made.value == msg && made.left == null && made.right == null
    decreases t, 1
  {
    AllFieldsOnHeap(node, t);
    RepresentsUnshared(node, t);
    NodesAllocated(t);
    if node == null {
      r := new Node(key, msg);
      made := r;
      return;
    }
    if key < node.key {
      made := InsertLeft(node, key, msg, t);
    } else if key > node.key {
      made := InsertRight(node, key, msg, t);
    } else {
      made := node;
    }
    r := node;
    AllFieldsOnHeap(r, SearchTree.Insert(t, key, msg, made));
    InsertKeepsFields(t, key, msg, made);
  }

  method InsertLeft(node: Node, key: nat, msg: MessageFormat, ghost t: HeapTree) returns (ghost made: Node)
    requires Represents(node, t) && Sorted(t) && key < node.key
    modifies Nodes(t)
    ensures key !in Keys(t) ==> fresh(made)
    ensures Represents(node, SearchTree.Insert(t, key, msg, made))
    decreases t, 0
  {
    NodesAllocated(t);
    var newLeft;
    newLeft, made := Insert(node.left, key, msg, t.left);
    node.left := newLeft;
    InsertNodes(t.left, key, msg, made);
  }

  method InsertRight(node: Node, key: nat, msg: MessageFormat, ghost t: HeapTree) returns (ghost made: Node)
    requires Represents(node, t) && Sorted(t) && key > node.key
    modifies Nodes(t)
    ensures key !in Keys(t) ==> fresh(made)
    ensures Represents(node, SearchTree.Insert(t, key, msg, made))
    decreases t, 0
  {
    NodesAllocated(t);
    var newRight;
    newRight, made := Insert(node.right, key, msg, t.right);
    node.right := newRight;
    InsertNodes(t.right, key, msg, made);
  }

  /** The leftmost node: the one with the least key. */
  method MinValueNode(node: Node?, ghost t: HeapTree) returns (current: Node?)
    requires Represents(node, t) && Sorted(t)
    ensures current == null <==> node == null
    ensures node != null ==>
              && current == LeastNode(t) && current in Nodes(t)
              && current.key == LeastKey(t) && current.value == LeastValue(t)
  {
    current := node;
    ghost var rest := t;
    while current != null && current.left != null
      invariant Represents(current, rest) && Nodes(rest) <= Nodes(t)
      invariant rest.Branch? <==> t.Branch?
      invariant t.Branch? ==> LeastNode(rest) == LeastNode(t) && LeastKey(rest) == LeastKey(t) && LeastValue(rest) == LeastValue(t)
      decreases rest
    {
      current := current.left;
      rest := rest.left;
    }
  }

  /** Appends the in-order listing of the tree to s. */
  method AppendText(root: Node?, s: string, ghost t: HeapTree) returns (r: string)
    requires Represents(root, t)
    ensures r == s + Printing.Print(t)
    decreases t
  {
    if root == null {
      return s;
    }
    NodesAllocated(t.right);
    var upper := AppendText(root.left, s, t.left);
    var line := Printing.BuildLine(root.key, root.value);
    r := AppendText(root.right, upper + line, t.right);
    TextAround(s, Printing.Print(t.left), line, Printing.Print(t.right));
  }

  lemma TextAround(s: string, a: string, line: string, b: string)
    ensures s + a + line + b == s + (a + line + b)
  {
  }

  /** In terms of trees, what deletion does to the nodes there were. */
  lemma DeleteSplicesFields(t: HeapTree, key: nat)
    requires Sorted(t) && Unshared(t)
    ensures forall f | f in FreedObjects(t, key) ::
              f in Nodes(t) && FreesAtMostOneChild(t, Delete(t, key), f) && SplicesOthers(t, Delete(t, key), key, f)
    ensures key !in Keys(t) ==> Delete(t, key) == t
  {
    if key in Keys(t) {
      var f := Freed(t, key);
      DeleteFreesAtMostOneChild(t, key);
      forall n | n in Nodes(t) && n != f
        ensures n in Nodes(Delete(t, key)) && FieldsAt(Delete(t, key), n) == Spliced(FieldsAt(t, n), key, f, FieldsAt(t, f))
      {
        DeleteSplices(t, key, n);
      }
    } else {
      DeleteKeys(t, key);
    }
  }

  ghost predicate FreesAtMostOneChild(t: HeapTree, u: HeapTree, f: Node)
    requires f in Nodes(t)
  {
    && (FieldsAt(t, f).left.Null? || FieldsAt(t, f).right.Null?)
    && Root(u) == Bypass(Root(t), f, OnlyChild(FieldsAt(t, f)))
  }

  ghost predicate SplicesOthers(t: HeapTree, u: HeapTree, key: nat, f: Node)
    requires f in Nodes(t)
  {
    forall n | n in Nodes(t) && n != f :: n in Nodes(u) && FieldsAt(u, n) == Spliced(FieldsAt(t, n), key, f, FieldsAt(t, f))
  }

  lemma RootOnHeap(node: Node?, t: HeapTree)
    requires Represents(node, t)
    ensures Root(t) == LinkOf(node)
  {
  }

  /** Deletes key below root and returns the new root and the freed objects. The node taken out has at
      most one child, which moves into its place; no other pointer and no value changes, and no key but
      the deleted one, which gives way to the key of the node taken out. */
  method DeleteNode(root: Node?, key: nat, ghost t: HeapTree) returns (r: Node?, ghost freed: set<Node>)
    requires Represents(root, t) && Sorted(t)
    modifies Nodes(t)
    ensures Represents(r, Delete(t, key))
    ensures freed == FreedObjects(t, key)
    ensures Nodes(Delete(t, key)) == Nodes(t) - freed
    ensures forall f: Node | old(allocated(f)) && f in freed ::
              f in Nodes(t) && (old(f.left) == null || old(f.right) == null)
              && LinkOf(r) == Bypass(LinkOf(root), f, OnlyChild(old(f.Fields())))
    ensures forall f: Node, n: Node | old(allocated(f)) && f in freed && old(allocated(n)) && n in Nodes(t) - freed ::
              n.Fields() == Spliced(old(n.Fields()), key, f, old(f.Fields()))
    ensures key !in Keys(t) ==> r == root && forall n: Node | old(allocated(n)) && n in Nodes(t) :: n.Fields() == old(n.Fields())
    decreases Size(t), 2
  {
    AllFieldsOnHeap(root, t);
    RepresentsUnshared(root, t);
    RootOnHeap(root, t);
    DeleteObjects(root, t, key);
    if root == null {
      r, freed := root, {};
    } else if key == root.key {
      r, freed := DeleteRoot(root, t);
    } else if key < root.key {
      freed := DeleteLeft(root, key, t);
      r := root;
    } else {
      freed := DeleteRight(root, key, t);
      r := root;
    }
    RootOnHeap(r, Delete(t, key));
    AllFieldsOnHeap(r, Delete(t, key));
    DeleteSplicesFields(t, key);
  }

  method DeleteLeft(root: Node, key: nat, ghost t: HeapTree) returns (ghost freed: set<Node>)
    requires Represents(root, t) && Sorted(t) && key < root.key
    modifies Nodes(t)
    ensures Represents(root, Delete(t, key))
    ensures freed == FreedObjects(t, key)
    decreases Size(t), 1
  {
    NodesAllocated(t);
    FreedOnSide(t, key);
    var newLeft;
    newLeft, freed := DeleteNode(root.left, key, t.left);
    root.left := newLeft;
    assert Represents(root, t.(left := Delete(t.left, key)));
  }

  method DeleteRight(root: Node, key: nat, ghost t: HeapTree) returns (ghost freed: set<Node>)
    requires Represents(root, t) && Sorted(t) && key > root.key
    modifies Nodes(t)
    ensures Represents(root, Delete(t, key))
    ensures freed == FreedObjects(t, key)
    decreases Size(t), 1
  {
    NodesAllocated(t);
    FreedOnSide(t, key);
    var newRight;
    newRight, freed := DeleteNode(root.right, key, t.right);
    root.right := newRight;
    assert Represents(root, t.(right := Delete(t.right, key)));
  }

  /** Deletes the entry of root itself: the last branch of DeleteNode. */
  method DeleteRoot(root: Node, ghost t: HeapTree) returns (r: Node?, ghost freed: set<Node>)
    requires Represents(root, t) && Sorted(t)
    modifies Nodes(t)
    ensures Represents(r, Delete(t, t.key))
    ensures freed == FreedObjects(t, t.key)
    ensures Nodes(Delete(t, t.key)) == Nodes(t) - freed
    decreases Size(t), 0, 1
  {
    DeleteObjects(root, t, t.key);
    if root.left == null {
      // At most the right child is left to take the place of root.
      return root.right, {root};
    } else if root.right == null {
      return root.left, {root};
    }
    freed := PullUpSuccessor(root, t);
    r := root;
  }

  /** The two-children case: root keeps its object and its value and takes over the successor's key. */
  method PullUpSuccessor(root: Node, ghost t: HeapTree) returns (ghost freed: set<Node>)
    requires Represents(root, t) && Sorted(t) && t.left.Branch? && t.right.Branch?
    modifies Nodes(t)
    ensures Represents(root, Delete(t, t.key))
    ensures freed == FreedObjects(t, t.key)
    decreases Size(t), 0, 0
  {
    NodesAllocated(t);
    var successor := CopySuccessorKey(root, t);
    DeleteObjects(root.right, t.right, LeastKey(t.right));
    var newRight;
    newRight, freed := DeleteNode(root.right, successor, t.right);
    root.right := newRight;
    FreedSuccessor(t);
  }

  /** Only the key moves up. Until the successor is gone, its key is in the tree twice. */
  method CopySuccessorKey(root: Node, ghost t: HeapTree) returns (successor: nat)
    requires Represents(root, t) && Sorted(t) && t.left.Branch? && t.right.Branch?
    modifies root`key
    ensures successor == LeastKey(t.right)
    ensures var copied := t.(key := LeastKey(t.right)); Represents(root, copied) && !Sorted(copied)
  {
    NodesAllocated(t.left);
    NodesAllocated(t.right);
    var temp := MinValueNode(root.right, t.right);
    successor := temp.key;
    assert Represents(root.left, t.left) && Represents(root.right, t.right);
    root.key := successor;
    assert Represents(root.left, t.left) && Represents(root.right, t.right);
    assert !Sorted(t.(key := successor)) by { CopiedKeyState(t); }
  }

  lemma FreedSuccessor(t: HeapTree)
    requires Sorted(t) && t.Branch? && t.left.Branch? && t.right.Branch?
    ensures FreedObjects(t.right, LeastKey(t.right)) == FreedObjects(t, t.key)
  {
    DeleteLeast(t.right);
  }

  lemma DeleteObjects(root: Node?, t: HeapTree, key: nat)
    requires Represents(root, t) && Sorted(t)
    ensures Nodes(Delete(t, key)) == Nodes(t) - FreedObjects(t, key)
  {
    RepresentsUnshared(root, t);
    if key in Keys(t) {
      DeleteFootprint(t, key);
    } else {
      DeleteKeys(t, key);
    }
  }
}
