/** The public operations of `AVLTree`: insert, delete and min, each insert and
    delete followed by `make_balanced` on the way back up, and the proof that
    they keep a tree a valid AVL tree. */
module AvlTree {
  import opened Options
  import opened Orders
  import opened AvlCore
  import opened AvlBalance

  /** `AVLTree.insert`. Smaller keys go left, larger keys go right, and a key the
      comparison cannot tell from the node's key is refused: the flag says whether
      a node was added, and the node set changes by exactly that node. */
  function Insert<K(!new)>(lt: (K, K) -> bool, t: Tree<K>, k: K): (res: (Tree<K>, bool))
    ensures Keys(res.0) == if res.1 then Keys(t) + {k} else Keys(t)
    ensures Size(res.0) == if res.1 then Size(t) + 1 else Size(t)
    ensures t.Nil? ==> res.1 && res.0 == Node(Nil, k, Nil, 0, 0)
  {
    match t
    case Nil =>
      (MakeBalanced(Node(Nil, k, Nil, -1, 0)), true)
    case Node(l, key, r, h, b) =>
      if lt(k, key) then
        var (l', inserted) := Insert(lt, l, k);
        (MakeBalanced(Node(l', key, r, h, b)), inserted)
      else if lt(key, k) then
        var (r', inserted) := Insert(lt, r, k);
        (MakeBalanced(Node(l, key, r', h, b)), inserted)
      else
        (MakeBalanced(t), false)
  }

  /** `AVLTree.min`: the leftmost key, which is the first of the in-order
      sequence, or `None` for the empty tree. */
  function Min<K>(t: Tree<K>): (m: Option<K>)
    ensures m.None? <==> t.Nil?
    ensures m.Some? ==> m.value == Inorder(t)[0] && m.value in Keys(t)
  {
    match t
    case Nil => None
    case Node(l, k, _, _, _) =>
      if l.Nil? then Some(k) else Min(l)
  }

  /** `AVLTree.successor`: the leftmost node of the right subtree, reached by
      walking left children, or `None` when the right subtree is empty. Its key
      is the one that follows the node's key in the in-order sequence. */
  method Successor<K>(t: Tree<K>) returns (s: Option<Tree<K>>)
    requires t.Node?
    ensures s.None? <==> t.right.Nil?
    ensures s.Some? ==> s.value.Node? && s.value.left.Nil? && Some(s.value.key) == Min(t.right)
    ensures s.Some? ==> s.value.key == Inorder(t)[|Inorder(t.left)| + 1]
  {
    var node := t.right;
    if node.Nil? {
      return None;
    }
    while node.left.Node?
      invariant node.Node? && Min(node) == Min(t.right)
      decreases node
    {
      node := node.left;
    }
    return Some(node);
  }

  /** `AVLTree.predecessor`: the rightmost node of the left subtree, reached by
      walking right children, or `None` when the left subtree is empty. Its key
      is the one that precedes the node's key in the in-order sequence. */
  method Predecessor<K>(t: Tree<K>) returns (p: Option<Tree<K>>)
    requires t.Node?
    ensures p.None? <==> t.left.Nil?
    ensures p.Some? ==> p.value.Node? && p.value.right.Nil?
    ensures p.Some? ==> |Inorder(t.left)| > 0 && p.value.key == Inorder(t.left)[|Inorder(t.left)| - 1]
    ensures p.Some? ==> p.value.key == Inorder(t)[|Inorder(t.left)| - 1]
  {
    var node := t.left;
    if node.Nil? {
      return None;
    }
    while node.right.Node?
      invariant node.Node? && |Inorder(node)| > 0
      invariant Inorder(node)[|Inorder(node)| - 1] == Inorder(t.left)[|Inorder(t.left)| - 1]
      decreases node
    {
      node := node.right;
    }
    return Some(node);
  }

  /** `AVLTree.delete`. The flag reports whether a key the comparison cannot
      tell from `k` was found; the node holding it is removed by `DeleteRoot`.
      No key is ever added, and when nothing was found none is lost. */
  function Delete<K(!new)>(lt: (K, K) -> bool, t: Tree<K>, k: K): (res: (Tree<K>, bool))
    ensures Keys(res.0) <= Keys(t)
    ensures !res.1 ==> Keys(res.0) == Keys(t)
    decreases t, 2
  {
    match t
    case Nil => (Nil, false)
    case Node(l, key, r, h, b) =>
      if Equiv(lt, key, k) then
        (DeleteRoot(lt, t), true)
      else if lt(k, key) then
        var (l', deleted) := Delete(lt, l, k);
        (MakeBalanced(Node(l', key, r, h, b)), deleted)
      else
        var (r', deleted) := Delete(lt, r, k);
        (MakeBalanced(Node(l, key, r', h, b)), deleted)
  }

  /** The matched-node branch of `AVLTree.delete`: a leaf disappears, a node with
      one child is replaced by it, and a node with two children takes the
      smallest key of its right subtree. */
  function DeleteRoot<K(!new)>(lt: (K, K) -> bool, t: Tree<K>): (r: Tree<K>)
    requires t.Node?
    ensures Keys(r) <= Keys(t)
    decreases t, 1
  {
    var Node(l, _, r, h, b) := t;
    if l.Nil? && r.Nil? then MakeBalanced(Nil)
    else if l.Nil? then SpliceChild(r, h, b)
    else if r.Nil? then SpliceChild(l, h, b)
    else TakeSuccessor(lt, t)
  }

  /** The wrapper of a node with a single child takes over that child's node and
      keeps its own cached numbers until they are recomputed. */
  function SpliceChild<K(!new)>(c: Tree<K>, h: int, b: int): (r: Tree<K>)
    ensures Inorder(r) == Inorder(c) && Keys(r) == Keys(c)
  {
    SkeletonFacts(WithCache(c, h, b), c);
    MakeBalanced(WithCache(c, h, b))
  }

  /** A node with two children takes the smallest key of its right subtree
      (`successor` finds that node), and the key is then deleted from the right
      subtree. */
  function TakeSuccessor<K(!new)>(lt: (K, K) -> bool, t: Tree<K>): (r: Tree<K>)
    requires t.Node? && t.left.Node? && t.right.Node?
    ensures Keys(r) <= Keys(t)
    decreases t, 0
  {
    var Node(l, _, r, h, b) := t;
    var m := Min(r).value;
    var r' := Delete(lt, r, m).0;
    MakeBalanced(Node(l, m, r', h, b))
  }

  /** Insert keeps a valid AVL tree valid and grows its height by at most one. */
  lemma {:induction false} InsertValid<K(!new)>(lt: (K, K) -> bool, t: Tree<K>, k: K)
    requires Valid(t)
    ensures Valid(Insert(lt, t, k).0)
    ensures Height(t) <= Height(Insert(lt, t, k).0) <= Height(t) + 1
  {
    match t
    case Nil =>
      MakeBalancedValid(Node(Nil, k, Nil, -1, 0));
    case Node(l, key, r, h, b) =>
      if lt(k, key) {
        InsertValid(lt, l, k);
        MakeBalancedValid(Node(Insert(lt, l, k).0, key, r, h, b));
      } else if lt(key, k) {
        InsertValid(lt, r, k);
        MakeBalancedValid(Node(l, key, Insert(lt, r, k).0, h, b));
      } else {
        MakeBalancedIdle(t);
      }
  }

  /** Inserting a key the tree already holds (up to the comparison) leaves a
      valid tree exactly as it was. */
  lemma {:induction false} InsertPresentIdle<K(!new)>(lt: (K, K) -> bool, t: Tree<K>, k: K)
    requires Valid(t)
    ensures !Insert(lt, t, k).1 ==> Insert(lt, t, k).0 == t
  {
    match t
    case Nil =>
    case Node(l, key, r, h, b) =>
      if lt(k, key) {
        InsertPresentIdle(lt, l, k);
        MakeBalancedIdle(t);
      } else if lt(key, k) {
        InsertPresentIdle(lt, r, k);
        MakeBalancedIdle(t);
      } else {
        MakeBalancedIdle(t);
      }
  }

  /** Delete keeps a valid AVL tree valid and lowers its height by at most one. */
  lemma {:induction false} DeleteValid<K(!new)>(lt: (K, K) -> bool, t: Tree<K>, k: K)
    requires Valid(t)
    ensures Valid(Delete(lt, t, k).0)
    ensures Height(t) - 1 <= Height(Delete(lt, t, k).0) <= Height(t)
    decreases t, 2
  {
    match t
    case Nil =>
    case Node(l, key, r, h, b) =>
      if Equiv(lt, key, k) {
        DeleteRootValid(lt, t);
      } else if lt(k, key) {
        DeleteValid(lt, l, k);
        MakeBalancedValid(Node(Delete(lt, l, k).0, key, r, h, b));
      } else {
        DeleteValid(lt, r, k);
        MakeBalancedValid(Node(l, key, Delete(lt, r, k).0, h, b));
      }
  }

  /** Removing a node keeps a valid AVL tree valid and lowers its height by at most one. */
  lemma DeleteRootValid<K(!new)>(lt: (K, K) -> bool, t: Tree<K>)
    requires Valid(t) && t.Node?
    ensures Valid(DeleteRoot(lt, t))
    ensures Height(t) - 1 <= Height(DeleteRoot(lt, t)) <= Height(t)
    decreases t, 1
  {
    var Node(l, _, r, h, b) := t;
    if l.Nil? && r.Nil? {
    } else if l.Nil? {
      SpliceChildValid(r, h, b);
    } else if r.Nil? {
      SpliceChildValid(l, h, b);
    } else {
      TakeSuccessorValid(lt, t);
    }
  }

  /** A valid child moved up into its parent's wrapper is a valid tree of its own height. */
  lemma SpliceChildValid<K(!new)>(c: Tree<K>, h: int, b: int)
    requires Valid(c)
    ensures Valid(SpliceChild(c, h, b)) && Height(SpliceChild(c, h, b)) == Height(c)
  {
    var w := WithCache(c, h, b);
    SkeletonFacts(w, c);
    MakeBalancedValid(w);
  }

  /** Taking the successor's key keeps a valid tree valid, and the height drops
      by at most one. */
  lemma TakeSuccessorValid<K(!new)>(lt: (K, K) -> bool, t: Tree<K>)
    requires Valid(t) && t.Node? && t.left.Node? && t.right.Node?
    ensures Valid(TakeSuccessor(lt, t))
    ensures Height(t) - 1 <= Height(TakeSuccessor(lt, t)) <= Height(t)
    decreases t, 0
  {
    var Node(l, _, r, h, b) := t;
    var m := Min(r).value;
    DeleteValid(lt, r, m);
    MakeBalancedValid(Node(l, m, Delete(lt, r, m).0, h, b));
  }

  /** Deleting a key the tree does not hold (up to the comparison) leaves a
      valid tree exactly as it was. */
  lemma {:induction false} DeleteAbsentIdle<K(!new)>(lt: (K, K) -> bool, t: Tree<K>, k: K)
    requires Valid(t)
    ensures !Delete(lt, t, k).1 ==> Delete(lt, t, k).0 == t
  {
    match t
    case Nil =>
    case Node(l, key, r, h, b) =>
      if Equiv(lt, key, k) {
      } else if lt(k, key) {
        DeleteAbsentIdle(lt, l, k);
        MakeBalancedIdle(t);
      } else {
        DeleteAbsentIdle(lt, r, k);
        MakeBalancedIdle(t);
      }
  }
}
