/** Binary search trees as values. A tree records, besides keys and values, which node object
    holds each entry, so that the pointer algorithms can be specified exactly: shape, contents
    and objects. The meaning of that specification for the key/value map is proved here. */
module SearchTree {
  import opened OrderedMap

  datatype Tree<N, V> = Leaf | Branch(left: Tree<N, V>, node: N, key: nat, value: V, right: Tree<N, V>)

  ghost function Keys<N, V>(t: Tree<N, V>): set<nat> {
    match t
    case Leaf => {}
    case Branch(l, _, k, _, r) => Keys(l) + {k} + Keys(r)
  }

  ghost function Nodes<N, V>(t: Tree<N, V>): set<N> {
    match t
    case Leaf => {}
    case Branch(l, n, _, _, r) => Nodes(l) + {n} + Nodes(r)
  }

  function Size<N, V>(t: Tree<N, V>): nat {
    match t
    case Leaf => 0
    case Branch(l, _, _, _, r) => Size(l) + 1 + Size(r)
  }

  ghost function ToMap<N, V>(t: Tree<N, V>): (m: map<nat, V>)
    ensures m.Keys == Keys(t)
  {
    match t
    case Leaf => map[]
    case Branch(l, _, k, v, r) => Join(ToMap(l), k, v, ToMap(r))
  }

  /** Strict search-tree order. */
  ghost predicate Sorted<N, V>(t: Tree<N, V>) {
    match t
    case Leaf => true
    case Branch(l, _, k, _, r) =>
      Sorted(l) && Sorted(r) && AllBelow(Keys(l), k) && AllAbove(Keys(r), k)
  }

  /** No node object occurs twice: the tree is acyclic and unshared. */
  ghost predicate Unshared<N, V>(t: Tree<N, V>) {
    match t
    case Leaf => true
    case Branch(l, n, _, _, r) =>
      Unshared(l) && Unshared(r) && Nodes(l) !! Nodes(r) && n !in Nodes(l) + Nodes(r)
  }

  // ------------------------------------------------------------ sizes

  lemma {:induction false} SizeIsKeyCount<N, V>(t: Tree<N, V>)
    requires Sorted(t)
    ensures Size(t) == |Keys(t)| == |ToMap(t)|
  {
    assert |ToMap(t)| == |ToMap(t).Keys|;
    match t
    case Leaf =>
    case Branch(l, _, k, _, r) =>
      SizeIsKeyCount(l);
      SizeIsKeyCount(r);
      assert Keys(l) !! {k} && Keys(l) + {k} !! Keys(r);
  }

  lemma {:induction false} SizeIsNodeCount<N, V>(t: Tree<N, V>)
    requires Unshared(t)
    ensures Size(t) == |Nodes(t)|
  {
    match t
    case Leaf =>
    case Branch(l, n, _, _, r) =>
      SizeIsNodeCount(l);
      SizeIsNodeCount(r);
      assert Nodes(l) !! {n} && Nodes(l) + {n} !! Nodes(r);
  }

  // ------------------------------------------------------------ least entry

  function LeastKey<N, V>(t: Tree<N, V>): nat
    requires t.Branch?
  {
    if t.left.Leaf? then t.key else LeastKey(t.left)
  }

  function LeastValue<N, V>(t: Tree<N, V>): V
    requires t.Branch?
  {
    if t.left.Leaf? then t.value else LeastValue(t.left)
  }

  function LeastNode<N, V>(t: Tree<N, V>): N
    requires t.Branch?
  {
    if t.left.Leaf? then t.node else LeastNode(t.left)
  }

  /** The leftmost entry is the entry with the least key. */
  lemma {:induction false} LeastIsMinimum<N, V>(t: Tree<N, V>)
    requires Sorted(t) && t.Branch?
    ensures LeastKey(t) in Keys(t) && LeastNode(t) in Nodes(t)
    ensures forall j | j in Keys(t) :: LeastKey(t) <= j
    ensures LeastKey(t) == Min(ToMap(t).Keys)
    ensures LeastValue(t) == ToMap(t)[LeastKey(t)]
  {
    if t.left.Branch? {
      LeastIsMinimum(t.left);
      assert LeastKey(t) < t.key;
    }
    assert LeastKey(t) in ToMap(t).Keys;
  }

  // ------------------------------------------------------------ insertion

  /** The tree after insertion, where a new entry would live in object n. */
  function Insert<N, V>(t: Tree<N, V>, key: nat, value: V, n: N): Tree<N, V> {
    match t
    case Leaf => Branch(Leaf, n, key, value, Leaf)
    case Branch(l, _, k, _, r) =>
      if key < k then t.(left := Insert(l, key, value, n))
      else if key > k then t.(right := Insert(r, key, value, n))
      else t
  }

  lemma {:induction false} InsertKeys<N, V>(t: Tree<N, V>, key: nat, value: V, n: N)
    requires Sorted(t)
    ensures Sorted(Insert(t, key, value, n))
    ensures Keys(Insert(t, key, value, n)) == Keys(t) + {key}
    ensures key in Keys(t) ==> Insert(t, key, value, n) == t
  {
    match t
    case Leaf =>
    case Branch(l, _, k, _, r) =>
      if key < k {
        InsertKeys(l, key, value, n);
      } else if key > k {
        InsertKeys(r, key, value, n);
      }
  }

  /** Insertion keeps the order and is insert-if-absent on the map. */
  lemma {:induction false} InsertMeaning<N, V>(t: Tree<N, V>, key: nat, value: V, n: N)
    requires Sorted(t)
    ensures Sorted(Insert(t, key, value, n))
    ensures ToMap(Insert(t, key, value, n)) == InsertIfAbsent(ToMap(t), key, value)
  {
    InsertKeys(t, key, value, n);
    match t
    case Leaf =>
    case Branch(l, _, k, v, r) =>
      JoinInsert(ToMap(l), k, v, ToMap(r), key, value);
      if key < k {
        InsertMeaning(l, key, value, n);
      } else if key > k {
        InsertMeaning(r, key, value, n);
      }
  }

  lemma {:induction false} InsertNodes<N, V>(t: Tree<N, V>, key: nat, value: V, n: N)
    requires Sorted(t)
    ensures Nodes(Insert(t, key, value, n)) == Nodes(t) + (if key in Keys(t) then {} else {n})
  {
    match t
    case Leaf =>
    case Branch(l, _, k, _, r) =>
      if key < k {
        InsertNodes(l, key, value, n);
      } else if key > k {
        InsertNodes(r, key, value, n);
      }
  }

  /** Insertion of a new key adds exactly the object n, and a non-empty tree keeps its root object. */
  lemma {:induction false} InsertFootprint<N, V>(t: Tree<N, V>, key: nat, value: V, n: N)
    requires Sorted(t) && Unshared(t)
    requires key !in Keys(t) ==> n !in Nodes(t)
    ensures Unshared(Insert(t, key, value, n))
    ensures Nodes(Insert(t, key, value, n)) == Nodes(t) + (if key in Keys(t) then {} else {n})
    ensures t.Branch? ==> Insert(t, key, value, n).Branch? && Insert(t, key, value, n).node == t.node
  {
    InsertNodes(t, key, value, n);
    match t
    case Leaf =>
    case Branch(l, _, k, _, r) =>
      if key < k {
        InsertFootprint(l, key, value, n);
      } else if key > k {
        InsertFootprint(r, key, value, n);
      }
  }

  // ------------------------------------------------------------ deletion

  /** The tree after deletion. With two children only the successor's key moves up, so the
      node keeps the value it had. */
  function Delete<N, V>(t: Tree<N, V>, key: nat): Tree<N, V>
    decreases Size(t)
  {
    match t
    case Leaf => Leaf
    case Branch(l, n, k, v, r) =>
      if key < k then t.(left := Delete(l, key))
      else if key > k then t.(right := Delete(r, key))
      else if l.Leaf? then r
      else if r.Leaf? then l
      else Branch(l, n, LeastKey(r), v, Delete(r, LeastKey(r)))
  }

  /** The object that deletion frees. */
  function Freed<N, V>(t: Tree<N, V>, key: nat): (n: N)
    requires key in Keys(t) && Sorted(t)
    decreases Size(t)
  {
    if key < t.key then Freed(t.left, key)
    else if key > t.key then Freed(t.right, key)
    else if t.left.Leaf? || t.right.Leaf? then t.node
    else LeastNode(t.right)
  }

  ghost function FreedObjects<N, V>(t: Tree<N, V>, key: nat): set<N>
    requires Sorted(t)
  {
    if key in Keys(t) then {Freed(t, key)} else {}
  }

  lemma FreedOnSide<N, V>(t: Tree<N, V>, key: nat)
    requires Sorted(t) && t.Branch?
    ensures key < t.key ==> FreedObjects(t, key) == FreedObjects(t.left, key)
    ensures key > t.key ==> FreedObjects(t, key) == FreedObjects(t.right, key)
  {
  }

  /** The node holding key has two children. */
  predicate TwoChildren<N, V>(t: Tree<N, V>, key: nat) {
    match t
    case Leaf => false
    case Branch(l, _, k, _, r) =>
      if key < k then TwoChildren(l, key)
      else if key > k then TwoChildren(r, key)
      else l.Branch? && r.Branch?
  }

  /** How often deletion takes the two-children branch, over all depths of its recursion. */
  function TwoChildrenSteps<N, V>(t: Tree<N, V>, key: nat): nat
    decreases Size(t)
  {
    match t
    case Leaf => 0
    case Branch(l, _, k, _, r) =>
      if key < k then TwoChildrenSteps(l, key)
      else if key > k then TwoChildrenSteps(r, key)
      else if l.Leaf? || r.Leaf? then 0
      else 1 + TwoChildrenSteps(r, LeastKey(r))
  }

  /** Map after deleting key, given whether its node has two children. */
  ghost function RemoveEffect<V>(m: map<nat, V>, key: nat, twoChildren: bool): map<nat, V> {
    if key in m && twoChildren && KeysAbove(m, key) != {}
    then RemoveAndShift(m, key)
    else m - {key}
  }

  /** Deletion keeps the order, and removes exactly the key from the key set. */
  lemma {:induction false} DeleteKeys<N, V>(t: Tree<N, V>, key: nat)
    requires Sorted(t)
    ensures Sorted(Delete(t, key))
    ensures Keys(Delete(t, key)) == Keys(t) - {key}
    ensures key !in Keys(t) ==> Delete(t, key) == t
    decreases Size(t)
  {
    match t
    case Leaf =>
    case Branch(l, _, k, _, r) =>
      if key < k {
        DeleteKeys(l, key);
        assert key !in Keys(r);
      } else if key > k {
        DeleteKeys(r, key);
        assert key !in Keys(l);
      } else if l.Branch? && r.Branch? {
        DeleteKeys(r, LeastKey(r));
        DeleteRootKeys(t);
      }
  }

  lemma DeleteRootKeys<N, V>(t: Tree<N, V>)
    requires Sorted(t) && t.Branch? && t.left.Branch? && t.right.Branch?
    requires Sorted(Delete(t.right, LeastKey(t.right)))
    requires Keys(Delete(t.right, LeastKey(t.right))) == Keys(t.right) - {LeastKey(t.right)}
    ensures Sorted(Delete(t, t.key)) && Keys(Delete(t, t.key)) == Keys(t) - {t.key}
  {
    LeastIsMinimum(t.right);
    SuccessorKeys(Keys(t.left), t.key, Keys(t.right), LeastKey(t.right));
  }

  /** Deleting the least key is exact removal and never takes the two-children branch. */
  lemma {:induction false} DeleteLeast<N, V>(t: Tree<N, V>)
    requires Sorted(t) && t.Branch?
    ensures !TwoChildren(t, LeastKey(t)) && TwoChildrenSteps(t, LeastKey(t)) == 0
    ensures ToMap(Delete(t, LeastKey(t))) == ToMap(t) - {LeastKey(t)}
    ensures LeastKey(t) in Keys(t) && Freed(t, LeastKey(t)) == LeastNode(t)
  {
    LeastIsMinimum(t);
    var Branch(l, _, k, v, r) := t;
    JoinRemove(ToMap(l), k, v, ToMap(r), LeastKey(t));
    if l.Branch? {
      LeastIsMinimum(l);
      DeleteLeast(l);
    } else {
      assert ToMap(l) + ToMap(r) == ToMap(r);
    }
  }

  /** Exact meaning of deletion for the map, in all cases. */
  lemma {:induction false} DeleteMeaning<N, V>(t: Tree<N, V>, key: nat)
    requires Sorted(t)
    ensures TwoChildren(t, key) ==> key in ToMap(t) && KeysAbove(ToMap(t), key) != {}
    ensures ToMap(Delete(t, key)) == RemoveEffect(ToMap(t), key, TwoChildren(t, key))
    ensures TwoChildrenSteps(t, key) == if TwoChildren(t, key) then 1 else 0
  {
    match t
    case Leaf =>
    case Branch(l, n, k, v, r) =>
      var ml, mr := ToMap(l), ToMap(r);
      if key == k {
        DeleteRoot(t);
      } else if key < k {
        DeleteMeaning(l, key);
        JoinRemove(ml, k, v, mr, key);
        if TwoChildren(l, key) { JoinShiftLeft(ml, k, v, mr, key); }
      } else {
        DeleteMeaning(r, key);
        JoinRemove(ml, k, v, mr, key);
        if TwoChildren(r, key) { JoinShiftRight(ml, k, v, mr, key); }
      }
  }

  lemma DeleteRoot<N, V>(t: Tree<N, V>)
    requires Sorted(t) && t.Branch?
    ensures TwoChildren(t, t.key) ==> KeysAbove(ToMap(t), t.key) != {}
    ensures ToMap(Delete(t, t.key)) == RemoveEffect(ToMap(t), t.key, TwoChildren(t, t.key))
    ensures TwoChildrenSteps(t, t.key) == if TwoChildren(t, t.key) then 1 else 0
  {
    var Branch(l, _, k, v, r) := t;
    var ml, mr := ToMap(l), ToMap(r);
    if l.Branch? && r.Branch? {
      LeastIsMinimum(r);
      DeleteLeast(r);
      JoinShiftRoot(ml, k, v, mr);
    } else {
      JoinRemove(ml, k, v, mr, k);
      assert l.Leaf? ==> ml + mr == mr;
      assert r.Leaf? ==> ml + mr == ml;
    }
  }

  /** Deletion is plain map removal exactly when the node does not have two children, or its
      successor happens to hold an equal value. */
  lemma DeleteIsPlainRemoval<N, V>(t: Tree<N, V>, key: nat)
    requires Sorted(t)
    ensures ToMap(Delete(t, key)) == ToMap(t) - {key}
            <==> (TwoChildren(t, key) ==>
                    key in ToMap(t) && KeysAbove(ToMap(t), key) != {} &&
                    ToMap(t)[Successor(ToMap(t), key)] == ToMap(t)[key])
  {
    DeleteMeaning(t, key);
    if TwoChildren(t, key) {
      var m := ToMap(t);
      var s := Successor(m, key);
      assert RemoveAndShift(m, key)[s] == m[key];
      assert (m - {key})[s] == m[s];
    }
  }

  /** The tree that arises when the keys 2, 1 and 3 are inserted, in which deletion corrupts another
      entry: key 3 ends up with the value of key 2. */
  lemma DeleteCanCorruptAValue<N, V>(x: N, y: N, z: N, a: V, b: V, c: V)
    ensures var t := Insert(Insert(Insert(Leaf, 2, b, y), 1, a, x), 3, c, z);
            && ToMap(t) == map[1 := a, 2 := b, 3 := c]
            && ToMap(Delete(t, 2)) == map[1 := a, 3 := b]
  {
    var t := Insert(Insert(Insert(Leaf, 2, b, y), 1, a, x), 3, c, z);
    assert Insert(Leaf, 2, b, y) == Branch(Leaf, y, 2, b, Leaf);
    assert Insert(Branch(Leaf, y, 2, b, Leaf), 1, a, x) == Branch(Branch(Leaf, x, 1, a, Leaf), y, 2, b, Leaf);
    assert Insert(Leaf, 3, c, z) == Branch(Leaf, z, 3, c, Leaf);
    assert t == Branch(Branch(Leaf, x, 1, a, Leaf), y, 2, b, Branch(Leaf, z, 3, c, Leaf));
    assert Delete(t.right, 3) == Leaf;
    assert Delete(t, 2) == Branch(t.left, y, 3, b, Leaf);
  }

  /** Deletion takes exactly one object out of the footprint and keeps the rest unshared. */
  lemma {:induction false} DeleteFootprint<N, V>(t: Tree<N, V>, key: nat)
    requires Sorted(t) && Unshared(t) && key in Keys(t)
    ensures Unshared(Delete(t, key))
    ensures Freed(t, key) in Nodes(t)
    ensures Nodes(Delete(t, key)) == Nodes(t) - {Freed(t, key)}
    decreases Size(t)
  {
    var Branch(l, n, k, v, r) := t;
    if key < k {
      DeleteFootprint(l, key);
    } else if key > k {
      DeleteFootprint(r, key);
    } else if l.Branch? && r.Branch? {
      LeastIsMinimum(r);
      DeleteLeast(r);
      DeleteFootprint(r, LeastKey(r));
    }
  }

  // ------------------------------------------------------------ the state between copying and deleting the successor

  /** How many nodes hold the key k. */
  ghost function Occurrences<N, V>(t: Tree<N, V>, k: nat): nat {
    match t
    case Leaf => 0
    case Branch(l, _, key, _, r) => Occurrences(l, k) + (if key == k then 1 else 0) + Occurrences(r, k)
  }

  lemma {:induction false} OccurrencesSorted<N, V>(t: Tree<N, V>, k: nat)
    requires Sorted(t)
    ensures Occurrences(t, k) == if k in Keys(t) then 1 else 0
  {
    match t
    case Leaf =>
    case Branch(l, _, _, _, r) =>
      OccurrencesSorted(l, k);
      OccurrencesSorted(r, k);
  }

  /** Once the successor's key has been copied up, the tree is no search tree: that key occurs twice,
      the deleted key nowhere, every other key once. Both subtrees are still sorted, and
      deleting the successor on the right restores a search tree. */
  lemma CopiedKeyState<N, V>(t: Tree<N, V>)
    requires Sorted(t) && t.Branch? && t.left.Branch? && t.right.Branch?
    ensures var s := LeastKey(t.right);
            var mid := t.(key := s);
            && !Sorted(mid) && Sorted(mid.left) && Sorted(mid.right)
            && (forall k :: Occurrences(mid, k) == if k == s then 2 else if k in Keys(t) - {t.key} then 1 else 0)
            && Delete(t, t.key) == mid.(right := Delete(mid.right, s))
            && Sorted(Delete(t, t.key))
  {
    LeastIsMinimum(t.right);
    DeleteKeys(t, t.key);
    var s := LeastKey(t.right);
    assert s in Keys(t.right) && t.key < s;
    forall k ensures Occurrences(t.(key := s), k) == if k == s then 2 else if k in Keys(t) - {t.key} then 1 else 0 {
      CopiedKeyOccurrences(t, k);
    }
  }

  lemma CopiedKeyOccurrences<N, V>(t: Tree<N, V>, k: nat)
    requires Sorted(t) && t.Branch? && t.right.Branch? && LeastKey(t.right) in Keys(t.right)
    ensures var s := LeastKey(t.right);
            Occurrences(t.(key := s), k) == if k == s then 2 else if k in Keys(t) - {t.key} then 1 else 0
  {
    OccurrencesSorted(t.left, k);
    OccurrencesSorted(t.right, k);
  }

  // ------------------------------------------------------------ what a single node holds

  datatype Link<+N> = Null | To(node: N)

  /** The fields of a node: its entry and the roots of its subtrees. */
  datatype Fields<N, V> = Fields(key: nat, value: V, left: Link<N>, right: Link<N>)

  function Root<N, V>(t: Tree<N, V>): Link<N> {
    match t
    case Leaf => Null
    case Branch(_, n, _, _, _) => To(n)
  }

  /** The fields of node n of t. */
  ghost function FieldsAt<N, V>(t: Tree<N, V>, n: N): Fields<N, V>
    requires n in Nodes(t)
  {
    if t.node == n then Fields(t.key, t.value, Root(t.left), Root(t.right))
    else if n in Nodes(t.left) then FieldsAt(t.left, n)
    else FieldsAt(t.right, n)
  }

  lemma {:induction false} FieldsInside<N, V>(t: Tree<N, V>, n: N)
    requires n in Nodes(t)
    ensures FieldsAt(t, n).key in Keys(t)
    ensures FieldsAt(t, n).left.To? ==> FieldsAt(t, n).left.node in Nodes(t)
    ensures FieldsAt(t, n).right.To? ==> FieldsAt(t, n).right.node in Nodes(t)
  {
    if t.node == n {
    } else if n in Nodes(t.left) {
      FieldsInside(t.left, n);
    } else {
      FieldsInside(t.right, n);
    }
  }

  /** The node holds what it held, and nothing has come between it and a child it had. */
  ghost predicate Kept<N, V>(before: Fields<N, V>, after: Fields<N, V>) {
    && after.key == before.key && after.value == before.value
    && (before.left.To? ==> after.left == before.left)
    && (before.right.To? ==> after.right == before.right)
  }

  /** A new key goes into a node without children, which is hung into a place that was empty. */
  lemma {:induction false} InsertAddsALeaf<N, V>(t: Tree<N, V>, key: nat, value: V, made: N, n: N)
    requires Sorted(t) && Unshared(t) && key !in Keys(t) && made !in Nodes(t) && (n == made || n in Nodes(t))
    ensures n in Nodes(Insert(t, key, value, made))
    ensures n == made ==> FieldsAt(Insert(t, key, value, made), n) == Fields(key, value, Null, Null)
    ensures n != made ==> Kept(FieldsAt(t, n), FieldsAt(Insert(t, key, value, made), n))
  {
    match t
    case Leaf =>
    case Branch(l, _, k, _, r) =>
      InsertNodes(l, key, value, made);
      InsertNodes(r, key, value, made);
      if key < k && n !in Nodes(r) + {t.node} {
        InsertAddsALeaf(l, key, value, made, n);
      } else if key > k && n !in Nodes(l) + {t.node} {
        InsertAddsALeaf(r, key, value, made, n);
      }
  }

  /** The link that replaces p when node f is taken out and child moves into its place. */
  ghost function Bypass<N>(p: Link<N>, f: N, child: Link<N>): Link<N> {
    if p == To(f) then child else p
  }

  ghost function OnlyChild<N, V>(f: Fields<N, V>): Link<N> {
    if f.left.Null? then f.right else f.left
  }

  /** What becomes of a node with the fields before when key is deleted and node f, with the fields freed, goes. */
  ghost function Spliced<N, V>(before: Fields<N, V>, key: nat, f: N, freed: Fields<N, V>): Fields<N, V> {
    Fields(if before.key == key then freed.key else before.key, before.value,
           Bypass(before.left, f, OnlyChild(freed)), Bypass(before.right, f, OnlyChild(freed)))
  }

  lemma {:induction false} LeastFields<N, V>(t: Tree<N, V>)
    requires Unshared(t) && t.Branch?
    ensures LeastNode(t) in Nodes(t) && FieldsAt(t, LeastNode(t)).key == LeastKey(t)
  {
    match t.left
    case Leaf =>
    case Branch(_, _, _, _, _) => LeastFields(t.left);
  }

  /** The node that goes has at most one child, which takes its place as the root if need be. */
  lemma {:induction false} DeleteFreesAtMostOneChild<N, V>(t: Tree<N, V>, key: nat)
    requires Sorted(t) && Unshared(t) && key in Keys(t)
    ensures Freed(t, key) in Nodes(t)
    ensures var f := FieldsAt(t, Freed(t, key));
            (f.left.Null? || f.right.Null?) && Root(Delete(t, key)) == Bypass(Root(t), Freed(t, key), OnlyChild(f))
    decreases Size(t)
  {
    DeleteFootprint(t, key);
    if key < t.key {
      DeleteFootprint(t.left, key);
      DeleteFreesAtMostOneChild(t.left, key);
    } else if key > t.key {
      DeleteFootprint(t.right, key);
      DeleteFreesAtMostOneChild(t.right, key);
    } else if t.left.Branch? && t.right.Branch? {
      DeleteLeast(t.right);
      DeleteFreesAtMostOneChild(t.right, LeastKey(t.right));
    }
  }

  /** Whether a node has two children shows in its fields. */
  lemma {:induction false} TwoChildrenMeaning<N, V>(t: Tree<N, V>, n: N)
    requires Sorted(t) && n in Nodes(t)
    ensures TwoChildren(t, FieldsAt(t, n).key) <==> FieldsAt(t, n).left.To? && FieldsAt(t, n).right.To?
  {
    FieldsInside(t, n);
    if t.node == n {
    } else if n in Nodes(t.left) {
      FieldsInside(t.left, n);
      TwoChildrenMeaning(t.left, n);
    } else {
      FieldsInside(t.right, n);
      TwoChildrenMeaning(t.right, n);
    }
  }

  /** The node that goes held the key itself or, if the node with the key has two children, the next key. */
  lemma {:induction false} FreedHeld<N, V>(t: Tree<N, V>, key: nat)
    requires Sorted(t) && Unshared(t) && key in Keys(t)
    ensures Freed(t, key) in Nodes(t)
    ensures !TwoChildren(t, key) ==> FieldsAt(t, Freed(t, key)).key == key
    ensures TwoChildren(t, key) ==> var s := FieldsAt(t, Freed(t, key)).key;
                                    s in Keys(t) && key < s && forall j | j in Keys(t) && key < j :: s <= j
  {
    DeleteFootprint(t, key);
    if key < t.key {
      DeleteFootprint(t.left, key);
      FreedHeld(t.left, key);
    } else if key > t.key {
      DeleteFootprint(t.right, key);
      FreedHeld(t.right, key);
    } else if t.left.Branch? && t.right.Branch? {
      LeastIsMinimum(t.right);
      LeastFields(t.right);
    }
  }

  /** A part of the tree without the key and the freed node is not touched. */
  lemma SplicedOutside<N, V>(t: Tree<N, V>, key: nat, f: N, freed: Fields<N, V>, n: N)
    requires n in Nodes(t) && f !in Nodes(t) && key !in Keys(t)
    ensures Spliced(FieldsAt(t, n), key, f, freed) == FieldsAt(t, n)
  {
    FieldsInside(t, n);
  }

  /** Deletion takes one node out and links its only child to its parent. No other pointer and no value
      changes, and no key but the deleted one, which gives way to the key of the node taken out. */
  lemma {:induction false} DeleteSplices<N, V>(t: Tree<N, V>, key: nat, n: N)
    requires Sorted(t) && Unshared(t) && key in Keys(t) && n in Nodes(t) && n != Freed(t, key)
    ensures n in Nodes(Delete(t, key)) && Freed(t, key) in Nodes(t)
    ensures FieldsAt(Delete(t, key), n) == Spliced(FieldsAt(t, n), key, Freed(t, key), FieldsAt(t, Freed(t, key)))
    decreases Size(t)
  {
    DeleteFootprint(t, key);
    if key < t.key {
      DeleteSplicesLeft(t, key, n);
      if n in Nodes(t.left) { DeleteSplices(t.left, key, n); }
    } else if key > t.key {
      DeleteSplicesRight(t, key, n);
      if n in Nodes(t.right) { DeleteSplices(t.right, key, n); }
    } else if t.left.Branch? && t.right.Branch? {
      DeleteLeast(t.right);
      DeleteSplicesRoot(t, n);
      if n in Nodes(t.right) { DeleteSplices(t.right, LeastKey(t.right), n); }
    } else if t.left.Branch? {
      SplicedOutside(t.left, key, t.node, FieldsAt(t, t.node), n);
    } else {
      SplicedOutside(t.right, key, t.node, FieldsAt(t, t.node), n);
    }
  }

  lemma DeleteSplicesLeft<N, V>(t: Tree<N, V>, key: nat, n: N)
    requires Sorted(t) && Unshared(t) && key in Keys(t) && n in Nodes(t) && key < t.key
    ensures Freed(t, key) in Nodes(t.left) && Freed(t, key) == Freed(t.left, key)
    ensures var f, u := Freed(t, key), Delete(t, key);
            var g := FieldsAt(t, f);
            && g == FieldsAt(t.left, f)
            && n in Nodes(u) + {f}
            && (n in Nodes(t.left) && n != f ==> n in Nodes(u.left) && FieldsAt(u, n) == FieldsAt(u.left, n))
            && (n !in Nodes(t.left) ==> FieldsAt(u, n) == Spliced(FieldsAt(t, n), key, f, g))
  {
    DeleteFootprint(t.left, key);
    DeleteFreesAtMostOneChild(t.left, key);
    if n in Nodes(t.right) {
      SplicedOutside(t.right, key, Freed(t, key), FieldsAt(t, Freed(t, key)), n);
    }
  }

  lemma DeleteSplicesRight<N, V>(t: Tree<N, V>, key: nat, n: N)
    requires Sorted(t) && Unshared(t) && key in Keys(t) && n in Nodes(t) && key > t.key
    ensures Freed(t, key) in Nodes(t.right) && Freed(t, key) == Freed(t.right, key)
    ensures var f, u := Freed(t, key), Delete(t, key);
            var g := FieldsAt(t, f);
            && g == FieldsAt(t.right, f)
            && n in Nodes(u) + {f}
            && (n in Nodes(t.right) && n != f ==> n in Nodes(u.right) && FieldsAt(u, n) == FieldsAt(u.right, n))
            && (n !in Nodes(t.right) ==> FieldsAt(u, n) == Spliced(FieldsAt(t, n), key, f, g))
  {
    DeleteFootprint(t.right, key);
    DeleteFreesAtMostOneChild(t.right, key);
    if n in Nodes(t.left) {
      SplicedOutside(t.left, key, Freed(t, key), FieldsAt(t, Freed(t, key)), n);
    }
  }

  lemma DeleteSplicesRoot<N, V>(t: Tree<N, V>, n: N)
    requires Sorted(t) && Unshared(t) && t.Branch? && t.left.Branch? && t.right.Branch? && n in Nodes(t)
    requires LeastKey(t.right) in Keys(t.right)
    ensures var s := LeastKey(t.right);
            var f, u := Freed(t.right, s), Delete(t, t.key);
            && f in Nodes(t.right) && f == Freed(t, t.key)
            && FieldsAt(t, f) == FieldsAt(t.right, f) && FieldsAt(t, f).key == s
            && n in Nodes(u) + {f}
            && (n in Nodes(t.right) && n != f ==>
                  && n in Nodes(u.right) && FieldsAt(u, n) == FieldsAt(u.right, n)
                  && Spliced(FieldsAt(t, n), t.key, f, FieldsAt(t, f)) == Spliced(FieldsAt(t.right, n), s, f, FieldsAt(t.right, f)))
            && (n !in Nodes(t.right) ==> FieldsAt(u, n) == Spliced(FieldsAt(t, n), t.key, f, FieldsAt(t, f)))
  {
    var s := LeastKey(t.right);
    LeastFields(t.right);
    LeastIsMinimum(t.right);
    DeleteLeast(t.right);
    DeleteFootprint(t.right, s);
    DeleteFreesAtMostOneChild(t.right, s);
    if n in Nodes(t.left) {
      SplicedOutside(t.left, t.key, Freed(t.right, s), FieldsAt(t, Freed(t.right, s)), n);
    } else if n in Nodes(t.right) {
      FieldsInside(t.right, n);
    }
  }

  // ------------------------------------------------------------ forgetting the objects

  /** The same tree without its node objects. */
  function Forget<N, V>(t: Tree<N, V>): Tree<(), V> {
    match t
    case Leaf => Leaf
    case Branch(l, _, k, v, r) => Branch(Forget(l), (), k, v, Forget(r))
  }

  lemma {:induction false} ForgetMeaning<N, V>(t: Tree<N, V>)
    ensures Keys(Forget(t)) == Keys(t) && ToMap(Forget(t)) == ToMap(t)
    ensures Sorted(Forget(t)) == Sorted(t) && Size(Forget(t)) == Size(t)
  {
    match t
    case Leaf =>
    case Branch(l, _, _, _, r) =>
      ForgetMeaning(l);
      ForgetMeaning(r);
  }

  lemma {:induction false} ForgetLeast<N, V>(t: Tree<N, V>)
    requires t.Branch?
    ensures LeastKey(Forget(t)) == LeastKey(t) && LeastValue(Forget(t)) == LeastValue(t)
  {
    match t.left
    case Leaf =>
    case Branch(_, _, _, _, _) => ForgetLeast(t.left);
  }

  /** Which objects hold the entries makes no difference to insertion. */
  lemma {:induction false} ForgetInsert<N, V>(t: Tree<N, V>, key: nat, value: V, n: N)
    ensures Forget(Insert(t, key, value, n)) == Insert(Forget(t), key, value, ())
  {
    match t
    case Leaf =>
    case Branch(l, _, _, _, r) =>
      ForgetInsert(l, key, value, n);
      ForgetInsert(r, key, value, n);
  }

  /** Which objects hold the entries makes no difference to deletion. */
  lemma {:induction false} ForgetDelete<N, V>(t: Tree<N, V>, key: nat)
    ensures Forget(Delete(t, key)) == Delete(Forget(t), key)
    decreases Size(t)
  {
    match t
    case Leaf =>
    case Branch(l, _, k, _, r) =>
      if key < k {
        ForgetDelete(l, key);
      } else if key > k {
        ForgetDelete(r, key);
      } else if l.Branch? && r.Branch? {
        ForgetLeast(r);
        ForgetDelete(r, LeastKey(r));
      }
  }
}
