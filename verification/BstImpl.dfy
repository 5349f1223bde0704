/** The tree wrapper with its cached size. To its callers it is a map from keys to messages. */
module BstWrapper {
  import opened Messages
  import opened OrderedMap
  import opened SearchTree
  import Bst
  import Printing

  datatype Lookup = Found(value: MessageFormat) | OutOfRange

  class BstImpl {
    var root: Bst.Node?
    var size: nat
    ghost var tree: Bst.HeapTree
    ghost var nodes: set<object>  // the node objects of the tree

    ghost predicate Valid()
      reads this, nodes
    {
      this !in nodes && nodes == Nodes(tree) && Bst.Represents(root, tree) && Sorted(tree) && size == Size(tree)
    }

    ghost function Contents(): map<nat, MessageFormat>
      reads this
    {
      ToMap(tree)
    }

    constructor ()
      ensures Valid() && Contents() == map[] && nodes == {}
    {
      root, size, tree, nodes := null, 0, Leaf, {};
    }

    /** The cached size is the number of reachable node objects and the number of keys. */
    lemma SizeIsExact()
      requires Valid()
      ensures size == |Contents()| == |nodes|
      ensures size == 0 <==> root == null
      ensures root == null <==> Contents() == map[]
    {
      SizeIsKeyCount(tree);
      Bst.RepresentsUnshared(root, tree);
      SizeIsNodeCount(tree);
    }

    function Contains(msgId: nat): (found: bool)
      requires Valid()
      reads this, nodes
      ensures found <==> msgId in Contents()
    {
      Bst.Search(root, msgId, tree) != null
    }

    method Add(msg: MessageFormat)
      requires Valid()
      modifies this, nodes
      ensures Valid() && fresh(nodes - old(nodes))
      ensures Contents() == InsertIfAbsent(old(Contents()), msg.messageId, msg)
      ensures Forget(tree) == SearchTree.Insert(old(Forget(tree)), msg.messageId, msg, ())
    {
      Insert(msg.messageId, msg);
    }

    /** Insert-if-absent. A new key adds one fresh object; the root object of a non-empty tree stays. */
    method Insert(msgId: nat, msg: MessageFormat)
      requires Valid()
      modifies this, nodes
      ensures Valid()
      ensures Contents() == InsertIfAbsent(old(Contents()), msgId, msg)
      ensures old(root) != null ==> root == old(root)
      ensures msgId in old(Contents()) ==> tree == old(tree) && nodes == old(nodes) && size == old(size)
      ensures msgId !in old(Contents()) ==>
                && size == old(size) + 1
                && exists n: Bst.Node ::
                     && fresh(n) && nodes == old(nodes) + {n} && tree == SearchTree.Insert(old(tree), msgId, msg, n)
                     && n.key == msgId && n.value == msg && n.left == null && n.right == null
      ensures forall n: Bst.Node | n in old(nodes) :: Kept(old(n.Fields()), n.Fields())
      ensures fresh(nodes - old(nodes))
      ensures Forget(tree) == SearchTree.Insert(old(Forget(tree)), msgId, msg, ())
    {
      ghost var t := tree;
      if !Contains(msgId) {
        ghost var made := InsertNew(msgId, msg);
        ForgetInsert(t, msgId, msg, made);
      } else {
        InsertPresent(t, msgId, msg);
      }
    }

    method InsertNew(msgId: nat, msg: MessageFormat) returns (ghost made: Bst.Node)
      requires Valid() && msgId !in Contents()
      modifies this, nodes
      ensures Valid() && fresh(made) && nodes == old(nodes) + {made} && size == old(size) + 1
      ensures tree == SearchTree.Insert(old(tree), msgId, msg, made)
      ensures Contents() == old(Contents())[msgId := msg]
      ensures old(root) != null ==> root == old(root)
      ensures made.key == msgId && made.value == msg && made.left == null && made.right == null
      ensures forall n: Bst.Node | n in old(nodes) :: Kept(old(n.Fields()), n.Fields())
    {
      hide Kept, Sorted, Bst.Represents, Size, ToMap;
      ghost var t := tree;
      var newRoot;
      newRoot, made := Grow(root, msgId, msg, t);
      InsertedTree(t, msgId, msg, made);
      root, tree, nodes, size := newRoot, SearchTree.Insert(t, msgId, msg, made), nodes + {made}, size + 1;
    }

    function At(msgId: nat): (r: Lookup)
      requires Valid()
      reads this, nodes
      ensures r == if msgId in Contents() then Found(Contents()[msgId]) else OutOfRange
    {
      if !Contains(msgId) then OutOfRange
      else Found(Bst.Search(root, msgId, tree).value)
    }

    method BeginIndex() returns (key: nat)
      requires Valid() && Contents() != map[]
      ensures Contents().Keys != {} && key == Min(Contents().Keys) == LeastKey(tree)
    {
      SizeIsExact();
      var node := Bst.MinValueNode(root, tree);
      LeastIsMinimum(tree);
      key := node.key;
    }

    method BeginValue() returns (value: MessageFormat)
      requires Valid() && Contents() != map[]
      ensures Contents().Keys != {} && value == Contents()[Min(Contents().Keys)]
    {
      var index := BeginIndex();
      value := At(index).value;
    }

    /** Removes a key. Exactly one object leaves the tree, and no remaining pointer reaches it. */
    method Remove(msgId: nat)
      requires Valid()
      modifies this, nodes
      ensures Valid() && tree == Delete(old(tree), msgId)
      ensures Contents() == RemoveEffect(old(Contents()), msgId, old(TwoChildren(tree, msgId)))
      ensures Contents().Keys == old(Contents()).Keys - {msgId}
      ensures nodes == old(nodes) - FreedObjects(old(tree), msgId)
      ensures forall f: Bst.Node, n: Bst.Node | f in old(nodes) - nodes && n in nodes ::
                && (old(f.left) == null || old(f.right) == null)
                && n.Fields() == Spliced(old(n.Fields()), msgId, f, old(f.Fields()))
      ensures msgId !in old(Contents()) ==> root == old(root) && forall n: Bst.Node | n in nodes :: n.Fields() == old(n.Fields())
      ensures size == old(size) - (if msgId in old(Contents()) then 1 else 0)
      ensures old(Contents().Keys != {} && msgId == Min(Contents().Keys)) ==> Contents() == old(Contents()) - {msgId}
    {
      hide Spliced, Sorted, Bst.Represents, Size, ToMap;
      RemoveMeaning(tree, msgId);
      if Contains(msgId) {
        RemovePresent(msgId);
      }
    }

    method RemovePresent(msgId: nat)
      requires Valid() && msgId in Contents()
      modifies this, nodes
      ensures Valid() && tree == Delete(old(tree), msgId)
      ensures nodes == old(nodes) - FreedObjects(old(tree), msgId)
      ensures forall f: Bst.Node, n: Bst.Node | f in old(nodes) - nodes && n in nodes ::
                && (old(f.left) == null || old(f.right) == null)
                && n.Fields() == Spliced(old(n.Fields()), msgId, f, old(f.Fields()))
      ensures size == old(size) - 1
    {
      ghost var t := tree;
      DeleteKeys(t, msgId);
      DeleteSize(t, msgId);
      var newRoot;
      ghost var freed;
      newRoot, freed := Bst.DeleteNode(root, msgId, t);
      assert this !in nodes - freed;
      root, tree, nodes, size := newRoot, Delete(t, msgId), nodes - freed, size - 1;
    }

    /** The listing is determined by the contents, and determines them. */
    method ToString() returns (s: string)
      requires Valid()
      ensures s == Printing.JoinLines(Printing.Lines(Entries(Contents())))
      ensures Printing.ParseEntries(s).Some? && Printing.FromEntries(Printing.ParseEntries(s).value) == Contents()
    {
      Printing.PrintIsCanonical(tree);
      Printing.PrintRoundTrip(tree);
      s := Bst.AppendText(root, "", tree);
      assert s == Printing.Print(tree);
    }

    method CachedSize() returns (n: nat)
      requires Valid()
      ensures n == |Contents()|
    {
      SizeIsExact();
      n := size;
    }

    method Empty() returns (empty: bool)
      requires Valid()
      ensures empty <==> Contents() == map[]
      ensures empty <==> root == null
    {
      SizeIsExact();
      var n := CachedSize();
      empty := n == 0;
    }
  }

  // ------------------------------------------------------------ sequences of operations

  datatype Op = AddOp(msg: MessageFormat) | InsertOp(msgId: nat, msg: MessageFormat) | RemoveOp(msgId: nat)

  /** What an operation does to the tree. */
  function TreeStep(t: Tree<(), MessageFormat>, op: Op): Tree<(), MessageFormat> {
    match op
    case AddOp(msg) => SearchTree.Insert(t, msg.messageId, msg, ())
    case InsertOp(msgId, msg) => SearchTree.Insert(t, msgId, msg, ())
    case RemoveOp(msgId) => Delete(t, msgId)
  }

  /** The tree after a sequence of operations on an empty container. */
  function TreeAfter(ops: seq<Op>): Tree<(), MessageFormat> {
    if ops == [] then Leaf else TreeStep(TreeAfter(ops[..|ops| - 1]), ops[|ops| - 1])
  }

  /** What an operation on a dictionary would do. */
  ghost function MapStep(m: map<nat, MessageFormat>, op: Op): map<nat, MessageFormat> {
    match op
    case AddOp(msg) => InsertIfAbsent(m, msg.messageId, msg)
    case InsertOp(msgId, msg) => InsertIfAbsent(m, msgId, msg)
    case RemoveOp(msgId) => m - {msgId}
  }

  ghost function MapAfter(ops: seq<Op>): map<nat, MessageFormat> {
    if ops == [] then map[] else MapStep(MapAfter(ops[..|ops| - 1]), ops[|ops| - 1])
  }

  /** The operation does not remove a node with two children whose successor holds another message. */
  ghost predicate Harmless(t: Tree<(), MessageFormat>, op: Op) {
    op.RemoveOp? && TwoChildren(t, op.msgId) ==>
      && op.msgId in ToMap(t) && KeysAbove(ToMap(t), op.msgId) != {}
      && ToMap(t)[Successor(ToMap(t), op.msgId)] == ToMap(t)[op.msgId]
  }

  lemma TreeStepMeaning(t: Tree<(), MessageFormat>, op: Op)
    requires Sorted(t)
    ensures Sorted(TreeStep(t, op))
    ensures ToMap(TreeStep(t, op)).Keys == MapStep(ToMap(t), op).Keys
    ensures ToMap(TreeStep(t, op)) == MapStep(ToMap(t), op) <==> Harmless(t, op)
  {
    match op
    case AddOp(msg) => InsertMeaning(t, msg.messageId, msg, ());
    case InsertOp(msgId, msg) => InsertMeaning(t, msgId, msg, ());
    case RemoveOp(msgId) =>
      DeleteKeys(t, msgId);
      DeleteIsPlainRemoval(t, msgId);
  }

  /** Over every sequence of operations the keys are those of a dictionary. */
  lemma {:induction false} KeysAfter(ops: seq<Op>)
    ensures Sorted(TreeAfter(ops))
    ensures ToMap(TreeAfter(ops)).Keys == MapAfter(ops).Keys
    decreases |ops|
  {
    if ops == [] {
    } else {
      KeysAfter(ops[..|ops| - 1]);
      TreeStepMeaning(TreeAfter(ops[..|ops| - 1]), ops[|ops| - 1]);
    }
  }

  /** After every operation of the sequence the contents are those of a dictionary. */
  ghost predicate IsDictionary(ops: seq<Op>) {
    ops != [] ==> IsDictionary(ops[..|ops| - 1]) && ToMap(TreeAfter(ops)) == MapAfter(ops)
  }

  ghost predicate AllHarmless(ops: seq<Op>) {
    ops != [] ==> AllHarmless(ops[..|ops| - 1]) && Harmless(TreeAfter(ops[..|ops| - 1]), ops[|ops| - 1])
  }

  /** The container is a dictionary throughout a sequence of operations exactly when each of them is harmless. */
  lemma {:induction false} DictionaryIffHarmless(ops: seq<Op>)
    ensures IsDictionary(ops) <==> AllHarmless(ops)
    decreases |ops|
  {
    if ops == [] {
    } else {
      var init := ops[..|ops| - 1];
      DictionaryIffHarmless(init);
      KeysAfter(init);
      TreeStepMeaning(TreeAfter(init), ops[|ops| - 1]);
    }
  }

  method Apply(b: BstImpl, op: Op)
    requires b.Valid()
    modifies b, b.nodes
    ensures b.Valid() && fresh(b.nodes - old(b.nodes))
    ensures Forget(b.tree) == TreeStep(old(Forget(b.tree)), op)
  {
    match op
    case AddOp(msg) => b.Add(msg);
    case InsertOp(msgId, msg) => b.Insert(msgId, msg);
    case RemoveOp(msgId) =>
      ForgetDelete(b.tree, msgId);
      b.Remove(msgId);
  }

  /** Over every sequence of operations from construction the contents are those of the specified tree,
      the cached size is the number of keys and of node objects, and the root is null exactly when
      there are none. */
  method Replay(ops: seq<Op>) returns (b: BstImpl)
    ensures b.Valid() && b.Contents() == ToMap(TreeAfter(ops))
    ensures b.Contents().Keys == MapAfter(ops).Keys
    ensures b.size == |MapAfter(ops)| == |b.nodes|
    ensures b.root == null <==> MapAfter(ops) == map[]
  {
    b := new BstImpl();
    for i := 0 to |ops|
      invariant b.Valid() && fresh(b) && fresh(b.nodes)
      invariant Forget(b.tree) == TreeAfter(ops[..i])
    {
      assert ops[..i + 1] == ops[..i] + [ops[i]];
      Apply(b, ops[i]);
    }
    assert ops[..|ops|] == ops;
    ReplayMeaning(b, ops);
  }

  lemma ReplayMeaning(b: BstImpl, ops: seq<Op>)
    requires b.Valid() && Forget(b.tree) == TreeAfter(ops)
    ensures b.Contents() == ToMap(TreeAfter(ops))
    ensures b.Contents().Keys == MapAfter(ops).Keys
    ensures b.size == |MapAfter(ops)| == |b.nodes|
    ensures b.root == null <==> MapAfter(ops) == map[]
  {
    b.SizeIsExact();
    ForgetMeaning(b.tree);
    KeysAfter(ops);
    SameKeysSameSize(b.Contents(), MapAfter(ops));
  }

  lemma SameKeysSameSize<V>(m: map<nat, V>, n: map<nat, V>)
    requires m.Keys == n.Keys
    ensures |m| == |n| && (m == map[] <==> n == map[])
  {
    assert |m| == |m.Keys| && |n| == |n.Keys|;
  }

  /** A container in which the removal of one message changes another one: message c is lost, and b,
      which was to be removed, is found in its place. */
  method RemoveCanCorruptAMessage(a: MessageFormat, b: MessageFormat, c: MessageFormat) returns (impl: BstImpl)
    ensures impl.Valid() && impl.Contents() == map[1 := a, 3 := b]
  {
    TreeOfThree(a, b, c);
    impl := Replay([InsertOp(2, b), InsertOp(1, a), InsertOp(3, c), RemoveOp(2)]);
  }

  lemma TreeOfThree(a: MessageFormat, b: MessageFormat, c: MessageFormat)
    ensures var ops := [InsertOp(2, b), InsertOp(1, a), InsertOp(3, c), RemoveOp(2)];
            ToMap(TreeAfter(ops)) == map[1 := a, 3 := b]
  {
    var one := [InsertOp(2, b)];
    var two := one + [InsertOp(1, a)];
    var three := two + [InsertOp(3, c)];
    assert one[..0] == [];
    TreeAfterSnoc(one, InsertOp(1, a));
    TreeAfterSnoc(two, InsertOp(3, c));
    TreeAfterSnoc(three, RemoveOp(2));
    assert three + [RemoveOp(2)] == [InsertOp(2, b), InsertOp(1, a), InsertOp(3, c), RemoveOp(2)];
    DeleteCanCorruptAValue((), (), (), a, b, c);
  }

  lemma TreeAfterSnoc(ops: seq<Op>, op: Op)
    ensures TreeAfter(ops + [op]) == TreeStep(TreeAfter(ops), op)
  {
    assert (ops + [op])[..|ops|] == ops;
  }

  /** Adds a node for a new key and returns the root: a non-empty tree keeps its root pointer. */
  method Grow(root: Bst.Node?, msgId: nat, msg: MessageFormat, ghost t: Bst.HeapTree)
    returns (newRoot: Bst.Node, ghost made: Bst.Node)
    requires Bst.Represents(root, t) && Sorted(t) && msgId !in Keys(t)
    modifies Nodes(t)
    ensures fresh(made) && Bst.Represents(newRoot, SearchTree.Insert(t, msgId, msg, made))
    ensures root != null ==> newRoot == root
    ensures made.key == msgId && made.value == msg && made.left == null && made.right == null
    ensures forall n: Bst.Node | old(allocated(n)) && n in Nodes(t) :: Kept(old(n.Fields()), n.Fields())
  {
    if root != null {
      var prevNode;
      prevNode, made := Bst.Insert(root, msgId, msg, t);
      newRoot := root;
    } else {
      newRoot := new Bst.Node(msgId, msg);
      made := newRoot;
    }
  }

  lemma InsertPresent(t: Bst.HeapTree, key: nat, msg: MessageFormat)
    requires Sorted(t) && key in Keys(t)
    ensures SearchTree.Insert(Forget(t), key, msg, ()) == Forget(t)
  {
    ForgetMeaning(t);
    InsertKeys(Forget(t), key, msg, ());
  }

  /** Everything that insertion of a new key means for the callers of Insert. */
  lemma InsertedTree(t: Bst.HeapTree, key: nat, msg: MessageFormat, n: Bst.Node)
    requires Sorted(t) && key !in ToMap(t)
    ensures Sorted(SearchTree.Insert(t, key, msg, n))
    ensures ToMap(SearchTree.Insert(t, key, msg, n)) == ToMap(t)[key := msg]
    ensures Size(SearchTree.Insert(t, key, msg, n)) == Size(t) + 1
    ensures Nodes(SearchTree.Insert(t, key, msg, n)) == Nodes(t) + {n}
  {
    InsertMeaning(t, key, msg, n);
    InsertKeys(t, key, msg, n);
    InsertNodes(t, key, msg, n);
    SizeIsKeyCount(t);
    SizeIsKeyCount(SearchTree.Insert(t, key, msg, n));
  }

  lemma DeleteSize<N, V>(t: Tree<N, V>, key: nat)
    requires Sorted(t) && key in Keys(t)
    ensures Size(Delete(t, key)) == Size(t) - 1
  {
    SizeIsKeyCount(t);
    DeleteKeys(t, key);
    SizeIsKeyCount(Delete(t, key));
  }

  /** Everything that deletion means for the callers of Remove. */
  lemma RemoveMeaning<N, V>(t: Tree<N, V>, key: nat)
    requires Sorted(t)
    ensures Sorted(Delete(t, key))
    ensures ToMap(Delete(t, key)) == RemoveEffect(ToMap(t), key, TwoChildren(t, key))
    ensures ToMap(Delete(t, key)).Keys == ToMap(t).Keys - {key}
    ensures Size(Delete(t, key)) == Size(t) - (if key in Keys(t) then 1 else 0)
    ensures key !in Keys(t) ==> Delete(t, key) == t
    ensures ToMap(t).Keys != {} && key == Min(ToMap(t).Keys) ==> ToMap(Delete(t, key)) == ToMap(t) - {key}
  {
    DeleteMeaning(t, key);
    DeleteKeys(t, key);
    if key in Keys(t) { DeleteSize(t, key); }
    if t.Branch? {
      LeastIsMinimum(t);
      if key == LeastKey(t) { DeleteLeast(t); }
    }
  }
}
