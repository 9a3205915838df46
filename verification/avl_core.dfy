/** The AVL tree's data and the facts the rest of the model is stated in.

    `Tree` mirrors the Python `AVLTree` wrapper: an empty wrapper is `Nil`; a
    wrapper holding a node is `Node`, carrying the node's key, its two child
    wrappers, and the `height` and `balance` cached in the wrapper. */
module AvlCore {
  import opened Orders

  datatype Tree<K> = Nil | Node(left: Tree<K>, key: K, right: Tree<K>, height: int, balance: int)

  function Max(a: int, b: int): int {
    if a < b then b else a
  }

  /** The true height: -1 for the empty subtree, 1 + the taller child otherwise. */
  function Height<K>(t: Tree<K>): (h: int)
    ensures h >= -1
    ensures h >= 0 <==> t.Node?
  {
    match t
    case Nil => -1
    case Node(l, _, r, _, _) => 1 + Max(Height(l), Height(r))
  }

  /** The height the wrapper holds (an empty wrapper holds -1). */
  function CachedHeight<K>(t: Tree<K>): int {
    if t.Nil? then -1 else t.height
  }

  /** The balance the wrapper holds (an empty wrapper holds 0). */
  function CachedBalance<K>(t: Tree<K>): int {
    if t.Nil? then 0 else t.balance
  }

  /** Number of nodes. */
  function Size<K>(t: Tree<K>): nat {
    match t
    case Nil => 0
    case Node(l, _, r, _, _) => Size(l) + 1 + Size(r)
  }

  ghost function Keys<K>(t: Tree<K>): set<K> {
    match t
    case Nil => {}
    case Node(l, k, r, _, _) => Keys(l) + {k} + Keys(r)
  }

  /** `AVLTree.inorder`: left subtree, then the node's key, then the right subtree. */
  function Inorder<K>(t: Tree<K>): (s: seq<K>)
    ensures |s| == Size(t)
  {
    match t
    case Nil => []
    case Node(l, k, r, _, _) => Inorder(l) + [k] + Inorder(r)
  }

  /** The in-order sequence lists exactly the tree's keys. */
  lemma {:induction false} InorderKeys<K>(t: Tree<K>)
    ensures forall x :: x in Inorder(t) <==> x in Keys(t)
  {
    match t
    case Nil =>
    case Node(l, _, r, _, _) =>
      InorderKeys(l);
      InorderKeys(r);
  }

  /** Every node's cached height is its true height. */
  ghost predicate HeightsExact<K>(t: Tree<K>) {
    match t
    case Nil => true
    case Node(l, _, r, h, _) => h == Height(t) && HeightsExact(l) && HeightsExact(r)
  }

  /** Every node's cached balance is the difference of its children's cached heights. */
  ghost predicate BalancesMatch<K>(t: Tree<K>) {
    match t
    case Nil => true
    case Node(l, _, r, _, b) => b == CachedHeight(l) - CachedHeight(r) && BalancesMatch(l) && BalancesMatch(r)
  }

  ghost predicate Cached<K>(t: Tree<K>) {
    HeightsExact(t) && BalancesMatch(t)
  }

  /** Exact caches read back as the true height and the true height difference. */
  lemma CachedIsTrue<K>(t: Tree<K>)
    requires Cached(t)
    ensures CachedHeight(t) == Height(t)
    ensures t.Node? ==> CachedBalance(t) == Height(t.left) - Height(t.right)
    ensures t.Node? ==> Cached(t.left) && Cached(t.right)
  {
    if t.Node? {
      assert HeightsExact(t.left) && HeightsExact(t.right);
      assert CachedHeight(t.left) == Height(t.left);
      assert CachedHeight(t.right) == Height(t.right);
    }
  }

  /** The AVL condition: at every node the child heights differ by at most one. */
  ghost predicate Balanced<K>(t: Tree<K>) {
    match t
    case Nil => true
    case Node(l, _, r, _, _) => -1 <= Height(l) - Height(r) <= 1 && Balanced(l) && Balanced(r)
  }

  /** The shape invariant every tree reachable through insert and delete keeps:
      at every node the cached height is the true height, the cached balance is
      the children's height difference, and that difference is at most one. */
  ghost predicate Valid<K>(t: Tree<K>) {
    match t
    case Nil => true
    case Node(l, _, r, h, b) =>
      && Valid(l) && Valid(r)
      && h == Height(t) && b == Height(l) - Height(r) && -1 <= b <= 1
  }

  /** `Valid` is the AVL condition together with exact caches. */
  lemma {:induction false} ValidIff<K>(t: Tree<K>)
    ensures Valid(t) <==> Balanced(t) && Cached(t)
  {
    match t
    case Nil =>
    case Node(l, _, r, _, _) =>
      ValidIff(l);
      ValidIff(r);
      if Cached(l) && Cached(r) {
        CachedIsTrue(l);
        CachedIsTrue(r);
      } else {
        assert !Cached(t) && !Valid(t);
      }
  }

  /** `ValidIff` for both children of a node. */
  lemma ValidChildren<K>(t: Tree<K>)
    requires t.Node? ==> Valid(t.left) && Valid(t.right)
    ensures t.Node? ==> Balanced(t.left) && Cached(t.left) && Balanced(t.right) && Cached(t.right)
  {
    if t.Node? {
      ValidIff(t.left);
      ValidIff(t.right);
    }
  }

  /** Smaller keys to the left, larger keys to the right, at every node. */
  ghost predicate SearchTree<K>(lt: (K, K) -> bool, t: Tree<K>) {
    match t
    case Nil => true
    case Node(l, k, r, _, _) =>
      && SearchTree(lt, l) && SearchTree(lt, r)
      && (forall x :: x in Keys(l) ==> lt(x, k))
      && (forall y :: y in Keys(r) ==> lt(k, y))
  }

  /** The tree holds a key the comparison cannot tell from `k`. */
  ghost predicate Member<K>(lt: (K, K) -> bool, t: Tree<K>, k: K) {
    exists e :: e in Keys(t) && Equiv(lt, e, k)
  }

  /** Same nodes, same keys, same links; only the cached numbers may differ. */
  ghost predicate SameSkeleton<K>(a: Tree<K>, b: Tree<K>) {
    match a
    case Nil => b.Nil?
    case Node(l, k, r, _, _) => b.Node? && b.key == k && SameSkeleton(l, b.left) && SameSkeleton(r, b.right)
  }

  /** Everything but the caches is determined by the skeleton. */
  lemma {:induction false} SkeletonFacts<K(!new)>(a: Tree<K>, b: Tree<K>)
    requires SameSkeleton(a, b)
    ensures Inorder(a) == Inorder(b) && Keys(a) == Keys(b) && Size(a) == Size(b)
    ensures Height(a) == Height(b) && Balanced(a) == Balanced(b)
    ensures forall lt: (K, K) -> bool :: SearchTree(lt, a) == SearchTree(lt, b)
  {
    match a
    case Nil =>
    case Node(l, k, r, _, _) =>
      SkeletonFacts(l, b.left);
      SkeletonFacts(r, b.right);
  }

  lemma {:induction false} SkeletonRefl<K>(t: Tree<K>)
    ensures SameSkeleton(t, t)
  {
    match t
    case Nil =>
    case Node(l, _, r, _, _) =>
      SkeletonRefl(l);
      SkeletonRefl(r);
  }

  /** The wrapper's cache replaced by `h` and `b` (an empty wrapper stays empty). */
  function WithCache<K>(t: Tree<K>, h: int, b: int): (r: Tree<K>)
    ensures SameSkeleton(r, t)
    ensures r.Node? ==> r.left == t.left && r.right == t.right
  {
    match t
    case Nil => Nil
    case Node(l, k, rt, _, _) =>
      SkeletonRefl(l);
      SkeletonRefl(rt);
      Node(l, k, rt, h, b)
  }

  /** The search-tree property is exactly strict sortedness of the in-order sequence. */
  lemma {:induction false} SearchTreeIffSorted<K(!new)>(lt: (K, K) -> bool, t: Tree<K>)
    requires StrictWeakOrder(lt)
    ensures SearchTree(lt, t) <==> StrictlySorted(lt, Inorder(t))
  {
    match t
    case Nil =>
    case Node(l, k, r, _, _) =>
      SearchTreeIffSorted(lt, l);
      SearchTreeIffSorted(lt, r);
      InorderKeys(l);
      InorderKeys(r);
      var sl, sr := Inorder(l), Inorder(r);
      var s := Inorder(t);
      assert s == sl + [k] + sr;
      if SearchTree(lt, t) {
        forall i, j | 0 <= i < j < |s|
          ensures lt(s[i], s[j])
        {
          if j < |sl| {
          } else if i < |sl| && j == |sl| {
            assert s[i] in Keys(l);
          } else if i < |sl| {
            assert s[i] in Keys(l);
            assert s[j] == sr[j - |sl| - 1];
            assert s[j] in Keys(r);
            Trans(lt, s[i], k, s[j]);
          } else if i == |sl| {
            assert s[j] == sr[j - |sl| - 1];
            assert s[j] in Keys(r);
          } else {
            assert s[i] == sr[i - |sl| - 1] && s[j] == sr[j - |sl| - 1];
          }
        }
      }
      if StrictlySorted(lt, s) {
        assert StrictlySorted(lt, sl) by {
          forall i, j | 0 <= i < j < |sl| ensures lt(sl[i], sl[j]) {
            assert sl[i] == s[i] && sl[j] == s[j];
          }
        }
        assert StrictlySorted(lt, sr) by {
          forall i, j | 0 <= i < j < |sr| ensures lt(sr[i], sr[j]) {
            assert sr[i] == s[i + |sl| + 1] && sr[j] == s[j + |sl| + 1];
          }
        }
        forall x | x in Keys(l) ensures lt(x, k) {
          assert x in sl;
          var i :| 0 <= i < |sl| && sl[i] == x;
          assert s[i] == x && s[|sl|] == k;
        }
        forall y | y in Keys(r) ensures lt(k, y) {
          assert y in sr;
          var j :| 0 <= j < |sr| && sr[j] == y;
          assert s[j + |sl| + 1] == y && s[|sl|] == k;
        }
      }
  }

  /** Trees with the same in-order sequence are search trees together. */
  lemma SameInorderSameSearchTree<K(!new)>(lt: (K, K) -> bool, a: Tree<K>, b: Tree<K>)
    requires StrictWeakOrder(lt)
    requires Inorder(a) == Inorder(b)
    ensures SearchTree(lt, a) == SearchTree(lt, b)
  {
    SearchTreeIffSorted(lt, a);
    SearchTreeIffSorted(lt, b);
  }

  /** In a search tree distinct nodes hold distinct keys, so the key set counts the nodes. */
  lemma {:induction false} SearchTreeKeyCount<K(!new)>(lt: (K, K) -> bool, t: Tree<K>)
    requires StrictWeakOrder(lt)
    requires SearchTree(lt, t)
    ensures |Keys(t)| == Size(t)
  {
    match t
    case Nil =>
    case Node(l, k, r, _, _) =>
      SearchTreeKeyCount(lt, l);
      SearchTreeKeyCount(lt, r);
      var A, B := Keys(l), Keys(r);
      forall x | x in A ensures lt(x, k) && x != k && x !in B {
        LtNotEquiv(lt, x, k);
      }
      var C := A + {k};
      assert |C| == |A| + 1;
      assert C * B == {};
      assert |C + B| == |C| + |B|;
  }

  /** Distinct keys of a search tree are strictly ordered one way or the other. */
  lemma {:induction false} DistinctKeysOrdered<K(!new)>(lt: (K, K) -> bool, t: Tree<K>, a: K, b: K)
    requires StrictWeakOrder(lt)
    requires SearchTree(lt, t)
    requires a in Keys(t) && b in Keys(t) && a != b
    ensures lt(a, b) || lt(b, a)
  {
    match t
    case Node(l, k, r, _, _) =>
      if a in Keys(l) && b in Keys(l) {
        DistinctKeysOrdered(lt, l, a, b);
      } else if a in Keys(r) && b in Keys(r) {
        DistinctKeysOrdered(lt, r, a, b);
      } else if a in Keys(l) {
        if b != k {
          Trans(lt, a, k, b);
        }
      } else if b in Keys(l) {
        if a != k {
          Trans(lt, b, k, a);
        }
      } else if a in Keys(r) {
        assert lt(k, a);
      } else {
        assert lt(k, b);
      }
  }
}
