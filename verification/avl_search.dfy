/** What `AVLTree`'s insert, delete and min promise about key order, for any
    comparison that is a strict weak order: the tree stays a search tree (so its
    in-order sequence stays strictly sorted), and the flags they return say
    exactly whether a key the comparison cannot tell apart was present. */
module AvlSearch {
  import opened Options
  import opened Orders
  import opened AvlCore
  import opened AvlBalance
  import opened AvlTree

  /** Below the node's key, only the left subtree can hold an equivalent key. */
  lemma MemberLeft<K(!new)>(lt: (K, K) -> bool, t: Tree<K>, k: K)
    requires StrictWeakOrder(lt) && SearchTree(lt, t)
    requires t.Node? && lt(k, t.key)
    ensures Member(lt, t, k) <==> Member(lt, t.left, k)
  {
    forall e | e in Keys(t) && e !in Keys(t.left) ensures !Equiv(lt, e, k) {
      if e != t.key {
        Trans(lt, k, t.key, e);
      }
    }
  }

  /** Above the node's key, only the right subtree can hold an equivalent key. */
  lemma MemberRight<K(!new)>(lt: (K, K) -> bool, t: Tree<K>, k: K)
    requires StrictWeakOrder(lt) && SearchTree(lt, t)
    requires t.Node? && lt(t.key, k)
    ensures Member(lt, t, k) <==> Member(lt, t.right, k)
  {
    forall e | e in Keys(t) && e !in Keys(t.right) ensures !Equiv(lt, e, k) {
      if e != t.key {
        Trans(lt, e, t.key, k);
      }
    }
  }

  /** Rebuilding a node with `make_balanced` keeps the search-tree property. */
  lemma RebuildSearchTree<K(!new)>(lt: (K, K) -> bool, u: Tree<K>)
    requires StrictWeakOrder(lt) && SearchTree(lt, u)
    ensures SearchTree(lt, MakeBalanced(u))
    ensures Keys(MakeBalanced(u)) == Keys(u) && Size(MakeBalanced(u)) == Size(u)
  {
    SameInorderSameSearchTree(lt, MakeBalanced(u), u);
  }

  /** Insert keeps the tree a search tree, so its in-order sequence stays strictly
      sorted, and it reports success exactly when no equivalent key was present. */
  lemma {:induction false} InsertCorrect<K(!new)>(lt: (K, K) -> bool, t: Tree<K>, k: K)
    requires StrictWeakOrder(lt) && SearchTree(lt, t)
    ensures var (t', inserted) := Insert(lt, t, k);
      && SearchTree(lt, t') && StrictlySorted(lt, Inorder(t'))
      && (inserted <==> !Member(lt, t, k))
  {
    var t' := Insert(lt, t, k).0;
    match t
    case Nil =>
      RebuildSearchTree(lt, Node(Nil, k, Nil, -1, 0));
    case Node(l, key, r, h, b) =>
      if lt(k, key) {
        InsertCorrect(lt, l, k);
        MemberLeft(lt, t, k);
        var u := Node(Insert(lt, l, k).0, key, r, h, b);
        assert SearchTree(lt, u);
        RebuildSearchTree(lt, u);
      } else if lt(key, k) {
        InsertCorrect(lt, r, k);
        MemberRight(lt, t, k);
        var u := Node(l, key, Insert(lt, r, k).0, h, b);
        assert SearchTree(lt, u);
        RebuildSearchTree(lt, u);
      } else {
        RebuildSearchTree(lt, t);
        assert key in Keys(t) && Equiv(lt, key, k);
      }
    SearchTreeIffSorted(lt, t');
  }

  /** In a search tree the leftmost key is below every other key. */
  lemma {:induction false} MinIsLeast<K(!new)>(lt: (K, K) -> bool, t: Tree<K>)
    requires StrictWeakOrder(lt) && SearchTree(lt, t)
    ensures Min(t).Some? ==> forall e :: e in Keys(t) ==> e == Min(t).value || lt(Min(t).value, e)
  {
    match t
    case Nil =>
    case Node(l, k, r, _, _) =>
      if l.Node? {
        MinIsLeast(lt, l);
        var m := Min(l).value;
        assert lt(m, k);
        forall e | e in Keys(r) ensures lt(m, e) {
          Trans(lt, m, k, e);
        }
      }
  }

  /** In a search tree the key `successor` finds is the least key above the
      node's key. */
  lemma SuccessorIsNextAbove<K(!new)>(lt: (K, K) -> bool, t: Tree<K>)
    requires StrictWeakOrder(lt) && SearchTree(lt, t)
    requires t.Node? && t.right.Node?
    ensures var m := Inorder(t)[|Inorder(t.left)| + 1];
      && m == Min(t.right).value && lt(t.key, m)
      && forall e :: e in Keys(t) && lt(t.key, e) ==> e == m || lt(m, e)
  {
    var s, j := Inorder(t), |Inorder(t.left)|;
    SearchTreeIffSorted(lt, t);
    InorderKeys(t);
    assert s[j] == t.key;
    forall e | e in Keys(t) && lt(t.key, e) ensures e == s[j + 1] || lt(s[j + 1], e) {
      assert !lt(e, t.key) by {
        LtNotEquiv(lt, t.key, e);
      }
      var i :| 0 <= i < |s| && s[i] == e;
      assert j < i;
    }
  }

  /** In a search tree the key `predecessor` finds is the greatest key below the
      node's key. */
  lemma PredecessorIsNextBelow<K(!new)>(lt: (K, K) -> bool, t: Tree<K>)
    requires StrictWeakOrder(lt) && SearchTree(lt, t)
    requires t.Node? && t.left.Node?
    ensures var p := Inorder(t)[|Inorder(t.left)| - 1];
      && lt(p, t.key)
      && forall e :: e in Keys(t) && lt(e, t.key) ==> e == p || lt(e, p)
  {
    var s, j := Inorder(t), |Inorder(t.left)|;
    SearchTreeIffSorted(lt, t);
    InorderKeys(t);
    assert s[j] == t.key;
    forall e | e in Keys(t) && lt(e, t.key) ensures e == s[j - 1] || lt(e, s[j - 1]) {
      assert !lt(t.key, e) by {
        LtNotEquiv(lt, e, t.key);
      }
      var i :| 0 <= i < |s| && s[i] == e;
      assert i < j;
    }
  }

  /** The keys around a node the comparison cannot tell from `k` are not equivalent to `k`. */
  lemma OnlyNodeKeyEquiv<K(!new)>(lt: (K, K) -> bool, t: Tree<K>, k: K)
    requires StrictWeakOrder(lt) && SearchTree(lt, t)
    requires t.Node? && Equiv(lt, t.key, k)
    ensures forall e :: e in Keys(t.left) ==> !Equiv(lt, e, k)
    ensures forall e :: e in Keys(t.right) ==> !Equiv(lt, e, k)
    ensures t.key !in Keys(t.left) && t.key !in Keys(t.right)
  {
    forall e | e in Keys(t.left) ensures !Equiv(lt, e, k) {
      LtEquivLt(lt, e, t.key, k);
    }
    forall e | e in Keys(t.right) ensures !Equiv(lt, e, k) {
      EquivLtLt(lt, k, t.key, e);
    }
  }

  /** What delete promises on a search tree: the result is still a search tree,
      exactly the key equivalent to `k` is gone, and the flag says whether there
      was one. */
  ghost predicate DeleteSpec<K(!new)>(lt: (K, K) -> bool, t: Tree<K>, k: K, t': Tree<K>, deleted: bool) {
    && SearchTree(lt, t')
    && (deleted <==> Member(lt, t, k))
    && (forall e :: e in Keys(t') <==> e in Keys(t) && !Equiv(lt, e, k))
    && Size(t') == (if deleted then Size(t) - 1 else Size(t))
  }

  /** Deleting the smallest key of a non-empty search tree removes exactly that key. */
  lemma DeleteMin<K(!new)>(lt: (K, K) -> bool, r: Tree<K>)
    requires StrictWeakOrder(lt) && SearchTree(lt, r) && r.Node?
    ensures var m := Min(r).value;
      var (r', deleted) := Delete(lt, r, m);
      && deleted && SearchTree(lt, r') && Keys(r') == Keys(r) - {m} && Size(r') == Size(r) - 1
      && (forall e :: e in Keys(r') ==> lt(m, e))
    decreases r, 3
  {
    var m := Min(r).value;
    MinIsLeast(lt, r);
    DeleteCorrect(lt, r, m);
    assert m in Keys(r) && Equiv(lt, m, m);
    var r' := Delete(lt, r, m).0;
    forall e | e in Keys(r') ensures lt(m, e) && e != m {
    }
  }

  /** Delete keeps the tree a search tree, removes exactly the key equivalent to
      `k`, and reports success exactly when there was one. */
  lemma {:induction false} DeleteCorrect<K(!new)>(lt: (K, K) -> bool, t: Tree<K>, k: K)
    requires StrictWeakOrder(lt) && SearchTree(lt, t)
    ensures DeleteSpec(lt, t, k, Delete(lt, t, k).0, Delete(lt, t, k).1)
    decreases t, 2
  {
    match t
    case Nil =>
    case Node(l, key, r, h, b) =>
      if Equiv(lt, key, k) {
        DeleteRootCorrect(lt, t);
        DeleteHere(lt, t, k);
      } else if lt(k, key) {
        DeleteCorrect(lt, l, k);
        DescendLeft(lt, t, k, Delete(lt, l, k).0, Delete(lt, l, k).1);
      } else {
        DeleteCorrect(lt, r, k);
        DescendRight(lt, t, k, Delete(lt, r, k).0, Delete(lt, r, k).1);
      }
  }

  /** The tree delete leaves behind is still strictly sorted in order. */
  lemma DeleteSorted<K(!new)>(lt: (K, K) -> bool, t: Tree<K>, k: K)
    requires StrictWeakOrder(lt) && SearchTree(lt, t)
    ensures StrictlySorted(lt, Inorder(Delete(lt, t, k).0))
  {
    DeleteCorrect(lt, t, k);
    SearchTreeIffSorted(lt, Delete(lt, t, k).0);
  }

  /** Removing the node's own key: exactly that key goes, and the order is kept. */
  lemma DeleteRootCorrect<K(!new)>(lt: (K, K) -> bool, t: Tree<K>)
    requires StrictWeakOrder(lt) && SearchTree(lt, t) && t.Node?
    ensures var t' := DeleteRoot(lt, t);
      SearchTree(lt, t') && Keys(t') == Keys(t) - {t.key} && Size(t') == Size(t) - 1
    decreases t, 1
  {
    if t.left.Nil? || t.right.Nil? {
      DeleteRootSplice(lt, t);
    } else {
      TakeSuccessorCorrect(lt, t);
      assert DeleteRoot(lt, t) == TakeSuccessor(lt, t);
    }
  }

  /** Removing the key of a node with at most one child. */
  lemma DeleteRootSplice<K(!new)>(lt: (K, K) -> bool, t: Tree<K>)
    requires StrictWeakOrder(lt) && SearchTree(lt, t) && t.Node?
    requires t.left.Nil? || t.right.Nil?
    ensures var t' := DeleteRoot(lt, t);
      SearchTree(lt, t') && Keys(t') == Keys(t) - {t.key} && Size(t') == Size(t) - 1
  {
    var Node(l, key, r, h, b) := t;
    KeyNotInChildren(lt, t);
    assert Keys(t) - {key} == Keys(l) + Keys(r);
    if l.Nil? && r.Nil? {
      assert DeleteRoot(lt, t) == MakeBalanced(Nil);
      RebuildSearchTree(lt, Nil);
    } else if l.Nil? {
      SpliceChildSearch(lt, r, h, b);
      assert DeleteRoot(lt, t) == SpliceChild(r, h, b);
      assert Keys(l) + Keys(r) == Keys(r);
    } else {
      SpliceChildSearch(lt, l, h, b);
      assert DeleteRoot(lt, t) == SpliceChild(l, h, b);
      assert Keys(l) + Keys(r) == Keys(l);
    }
  }

  /** A child moved up into its parent's wrapper keeps its keys, their order and their number. */
  lemma SpliceChildSearch<K(!new)>(lt: (K, K) -> bool, c: Tree<K>, h: int, b: int)
    requires StrictWeakOrder(lt) && SearchTree(lt, c)
    ensures var r := SpliceChild(c, h, b); SearchTree(lt, r) && Keys(r) == Keys(c) && Size(r) == Size(c)
  {
    SameInorderSameSearchTree(lt, SpliceChild(c, h, b), c);
  }

  /** The node's key replaced by the least key `m` of its right subtree, and `m`
      deleted from there: the keys of both subtrees remain, in order. */
  lemma TakeSuccessorCorrect<K(!new)>(lt: (K, K) -> bool, t: Tree<K>)
    requires StrictWeakOrder(lt) && SearchTree(lt, t)
    requires t.Node? && t.left.Node? && t.right.Node?
    ensures var t' := TakeSuccessor(lt, t);
      SearchTree(lt, t') && Keys(t') == Keys(t) - {t.key} && Size(t') == Size(t) - 1
    decreases t, 0
  {
    var Node(l, key, r, h, b) := t;
    var m := Min(r).value;
    var r' := Delete(lt, r, m).0;
    DeleteMin(lt, r);
    assert TakeSuccessor(lt, t) == MakeBalanced(Node(l, m, r', h, b));
    SuccessorRebuild(lt, t, m, r');
  }

  /** The node rebuilt around the least key `m` of its right subtree, with the
      rest `r'` of that subtree on its right, holds the old keys but its own. */
  lemma SuccessorRebuild<K(!new)>(lt: (K, K) -> bool, t: Tree<K>, m: K, r': Tree<K>)
    requires StrictWeakOrder(lt) && SearchTree(lt, t)
    requires t.Node? && m in Keys(t.right) && Keys(r') == Keys(t.right) - {m}
    requires SearchTree(lt, r') && Size(r') == Size(t.right) - 1
    requires forall e :: e in Keys(r') ==> lt(m, e)
    ensures var t' := MakeBalanced(Node(t.left, m, r', t.height, t.balance));
      SearchTree(lt, t') && Keys(t') == Keys(t) - {t.key} && Size(t') == Size(t) - 1
  {
    var Node(l, key, r, h, b) := t;
    var u := Node(l, m, r', h, b);
    assert lt(key, m);
    forall x | x in Keys(l) ensures lt(x, m) {
      Trans(lt, x, key, m);
    }
    assert SearchTree(lt, u);
    RebuildSearchTree(lt, u);
    KeyNotInChildren(lt, t);
    assert Keys(u) == Keys(l) + Keys(r) == Keys(t) - {key};
  }

  /** A search tree's node key occurs in neither subtree. */
  lemma KeyNotInChildren<K(!new)>(lt: (K, K) -> bool, t: Tree<K>)
    requires StrictWeakOrder(lt) && SearchTree(lt, t) && t.Node?
    ensures t.key !in Keys(t.left) && t.key !in Keys(t.right)
  {
  }

  /** The node's key is the one the comparison cannot tell from `k`: delete
      reports success and removes exactly it. */
  lemma DeleteHere<K(!new)>(lt: (K, K) -> bool, t: Tree<K>, k: K)
    requires StrictWeakOrder(lt) && SearchTree(lt, t)
    requires t.Node? && Equiv(lt, t.key, k)
    requires var t' := DeleteRoot(lt, t); SearchTree(lt, t') && Keys(t') == Keys(t) - {t.key} && Size(t') == Size(t) - 1
    ensures DeleteSpec(lt, t, k, DeleteRoot(lt, t), true)
  {
    OnlyNodeKeyEquiv(lt, t, k);
    assert t.key in Keys(t);
  }

  /** The key is below the node's: whatever the left subtree's delete does, the
      rebuilt node does to the whole tree. */
  lemma DescendLeft<K(!new)>(lt: (K, K) -> bool, t: Tree<K>, k: K, l': Tree<K>, d: bool)
    requires StrictWeakOrder(lt) && SearchTree(lt, t)
    requires t.Node? && lt(k, t.key)
    requires DeleteSpec(lt, t.left, k, l', d)
    ensures DeleteSpec(lt, t, k, MakeBalanced(Node(l', t.key, t.right, t.height, t.balance)), d)
  {
    var Node(l, key, r, h, b) := t;
    MemberLeft(lt, t, k);
    var u := Node(l', key, r, h, b);
    assert SearchTree(lt, u);
    RebuildSearchTree(lt, u);
    forall e | e in Keys(r) ensures !Equiv(lt, e, k) {
      Trans(lt, k, key, e);
    }
    assert !Equiv(lt, key, k);
    var t' := MakeBalanced(u);
    assert Keys(t') == Keys(u);
    forall e ensures e in Keys(t') <==> e in Keys(t) && !Equiv(lt, e, k) {
    }
    assert SearchTree(lt, t') && (d <==> Member(lt, t, k));
    assert Size(t') == (if d then Size(t) - 1 else Size(t));
  }

  /** The key is above the node's: whatever the right subtree's delete does, the
      rebuilt node does to the whole tree. */
  lemma DescendRight<K(!new)>(lt: (K, K) -> bool, t: Tree<K>, k: K, r': Tree<K>, d: bool)
    requires StrictWeakOrder(lt) && SearchTree(lt, t)
    requires t.Node? && lt(t.key, k)
    requires DeleteSpec(lt, t.right, k, r', d)
    ensures DeleteSpec(lt, t, k, MakeBalanced(Node(t.left, t.key, r', t.height, t.balance)), d)
  {
    var Node(l, key, r, h, b) := t;
    MemberRight(lt, t, k);
    var u := Node(l, key, r', h, b);
    assert SearchTree(lt, u);
    RebuildSearchTree(lt, u);
    forall e | e in Keys(l) ensures !Equiv(lt, e, k) {
      Trans(lt, e, key, k);
    }
    assert !Equiv(lt, key, k);
    var t' := MakeBalanced(u);
    assert Keys(t') == Keys(u);
    forall e ensures e in Keys(t') <==> e in Keys(t) && !Equiv(lt, e, k) {
    }
    assert SearchTree(lt, t') && (d <==> Member(lt, t, k));
    assert Size(t') == (if d then Size(t) - 1 else Size(t));
  }
}
