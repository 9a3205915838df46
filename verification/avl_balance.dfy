/** Height and balance bookkeeping, rotations and rebalancing
    (`update_heights`, `update_balances`, `is_balanced`, `rotate_left`,
    `rotate_right` and `make_balanced` of `AVLTree`). */
module AvlBalance {
  import opened AvlCore

  /** `update_heights(recurse)`: with `recurse` every height below is recomputed
      first; without it only this wrapper's height is, from its children's caches. */
  function UpdateHeights<K(!new)>(t: Tree<K>, recurse: bool): (r: Tree<K>)
    ensures SameSkeleton(r, t)
    ensures recurse ==> HeightsExact(r)
    ensures !recurse && t.Node? ==> r.left == t.left && r.right == t.right
    ensures t.Node? && HeightsExact(t.left) && HeightsExact(t.right) ==> HeightsExact(r)
    ensures t.Node? ==> r.balance == t.balance
  {
    match t
    case Nil => Nil
    case Node(l, k, rt, _, b) =>
      var l' := if recurse then UpdateHeights(l, true) else l;
      var r' := if recurse then UpdateHeights(rt, true) else rt;
      SkeletonRefl(l);
      SkeletonRefl(rt);
      SkeletonFacts(l', l);
      SkeletonFacts(r', rt);
      Node(l', k, r', 1 + Max(CachedHeight(l'), CachedHeight(r')), b)
  }

  /** `update_balances(recurse)`: each recomputed balance is the difference of the
      children's cached heights; heights are left alone. */
  function UpdateBalances<K(!new)>(t: Tree<K>, recurse: bool): (r: Tree<K>)
    ensures SameSkeleton(r, t)
    ensures recurse ==> BalancesMatch(r)
    ensures !recurse && t.Node? ==> r.left == t.left && r.right == t.right
    ensures t.Node? && BalancesMatch(t.left) && BalancesMatch(t.right) ==> BalancesMatch(r)
    ensures HeightsExact(t) ==> HeightsExact(r)
    ensures CachedHeight(r) == CachedHeight(t)
  {
    match t
    case Nil => Nil
    case Node(l, k, rt, h, _) =>
      var l' := if recurse then UpdateBalances(l, true) else l;
      var r' := if recurse then UpdateBalances(rt, true) else rt;
      SkeletonRefl(l);
      SkeletonRefl(rt);
      SkeletonFacts(l', l);
      SkeletonFacts(r', rt);
      Node(l', k, r', h, CachedHeight(l') - CachedHeight(r'))
  }

  /** `update_heights()` followed by `update_balances()`: every cache made exact. */
  function Recompute<K(!new)>(t: Tree<K>): (r: Tree<K>)
    ensures SameSkeleton(r, t) && Cached(r)
  {
    var t1 := UpdateHeights(t, true);
    var t2 := UpdateBalances(t1, true);
    SkeletonTrans(t2, t1, t);
    t2
  }

  /** `update_heights(False)` followed by `update_balances(False)`: only this
      wrapper's caches are recomputed, which is enough when the children's are exact. */
  function RecomputeLocal<K(!new)>(t: Tree<K>): (r: Tree<K>)
    ensures SameSkeleton(r, t)
    ensures r.Node? ==> r.left == t.left && r.right == t.right
    ensures (t.Node? ==> Cached(t.left) && Cached(t.right)) ==> Cached(r)
  {
    var t1 := UpdateHeights(t, false);
    var t2 := UpdateBalances(t1, false);
    SkeletonTrans(t2, t1, t);
    t2
  }

  lemma {:induction false} SkeletonTrans<K>(a: Tree<K>, b: Tree<K>, c: Tree<K>)
    requires SameSkeleton(a, b) && SameSkeleton(b, c)
    ensures SameSkeleton(a, c)
  {
    match a
    case Nil =>
    case Node(l, _, r, _, _) =>
      SkeletonTrans(l, b.left, c.left);
      SkeletonTrans(r, b.right, c.right);
  }

  /** `update_heights()` leaves exact height caches as they are. */
  lemma {:induction false} UpdateHeightsIdle<K(!new)>(t: Tree<K>)
    requires HeightsExact(t)
    ensures UpdateHeights(t, true) == t
  {
    if t.Node? {
      UpdateHeightsIdle(t.left);
      UpdateHeightsIdle(t.right);
      assert CachedHeight(t.left) == Height(t.left) && CachedHeight(t.right) == Height(t.right);
    }
  }

  /** `update_balances()` leaves matching balance caches as they are. */
  lemma {:induction false} UpdateBalancesIdle<K(!new)>(t: Tree<K>)
    requires BalancesMatch(t)
    ensures UpdateBalances(t, true) == t
  {
    if t.Node? {
      UpdateBalancesIdle(t.left);
      UpdateBalancesIdle(t.right);
    }
  }

  /** Refreshing every cache of a tree whose caches are already exact changes
      nothing. */
  lemma RecomputeIdle<K(!new)>(t: Tree<K>)
    ensures Cached(t) ==> Recompute(t) == t
  {
    if Cached(t) {
      UpdateHeightsIdle(t);
      UpdateBalancesIdle(t);
    }
  }

  /** `is_balanced`: refresh every cache of this wrapper's tree, check the
      balance is below 2 in size, and ask both children in turn. The answer is
      the AVL condition, and the tree is left with every cache exact; a tree
      whose caches were already exact is left as it was. */
  function IsBalanced<K(!new)>(t: Tree<K>): (res: (bool, Tree<K>))
    ensures res.0 <==> Balanced(t)
    ensures SameSkeleton(res.1, t) && Cached(res.1)
    ensures Cached(t) ==> res.1 == t
    decreases Size(t)
  {
    if t.Nil? then (true, t)
    else
      var t' := Recompute(t);
      SkeletonFacts(t', t);
      SkeletonFacts(t'.left, t.left);
      SkeletonFacts(t'.right, t.right);
      CachedIsTrue(t');
      RecomputeIdle(t);
      var (bl, l') := IsBalanced(t'.left);
      var (br, r') := IsBalanced(t'.right);
      (-2 < t'.balance < 2 && bl && br, Node(l', t'.key, r', t'.height, t'.balance))
  }

  /** `rotate_right`: the left child B moves up, the old root A becomes B's right
      child and B's old right subtree T becomes A's left subtree. Caches stay with
      the wrappers, not the nodes, exactly as the Python moves nodes between them. */
  function RotateRight<K(!new)>(t: Tree<K>): (r: Tree<K>)
    requires t.Node? && t.left.Node?
    ensures Inorder(r) == Inorder(t) && Keys(r) == Keys(t)
  {
    var Node(b, ka, c, hA, bA) := t;
    var Node(a, kb, tb, hB, bB) := b;
    SkeletonFacts(WithCache(tb, hB, bB), tb);
    Node(a, kb, Node(WithCache(tb, hB, bB), ka, c, CachedHeight(tb), CachedBalance(tb)), hA, bA)
  }

  /** `rotate_left`: the mirror image of `RotateRight`. */
  function RotateLeft<K(!new)>(t: Tree<K>): (r: Tree<K>)
    requires t.Node? && t.right.Node?
    ensures Inorder(r) == Inorder(t) && Keys(r) == Keys(t)
  {
    var Node(a, ka, b, hA, bA) := t;
    var Node(tb, kb, c, hB, bB) := b;
    SkeletonFacts(WithCache(tb, hB, bB), tb);
    Node(Node(a, ka, WithCache(tb, hB, bB), CachedHeight(tb), CachedBalance(tb)), kb, c, hA, bA)
  }

  /** A rotation moves nodes, not caches, so it sees only the skeleton. */
  lemma RotateRightSkeleton<K(!new)>(x: Tree<K>, y: Tree<K>)
    requires x.Node? && x.left.Node? && SameSkeleton(x, y)
    ensures y.Node? && y.left.Node? && SameSkeleton(RotateRight(x), RotateRight(y))
  {
    var Node(b, ka, c, _, _) := x;
    var Node(a, kb, tb, hB, bB) := b;
    var ybt := y.left.right;
    SkeletonTrans(WithCache(tb, hB, bB), tb, ybt);
    assert SameSkeleton(ybt, WithCache(ybt, y.left.height, y.left.balance));
    SkeletonTrans(WithCache(tb, hB, bB), ybt, WithCache(ybt, y.left.height, y.left.balance));
  }

  lemma RotateLeftSkeleton<K(!new)>(x: Tree<K>, y: Tree<K>)
    requires x.Node? && x.right.Node? && SameSkeleton(x, y)
    ensures y.Node? && y.right.Node? && SameSkeleton(RotateLeft(x), RotateLeft(y))
  {
    var Node(a, ka, b, _, _) := x;
    var Node(tb, kb, c, hB, bB) := b;
    var ybt := y.right.left;
    SkeletonTrans(WithCache(tb, hB, bB), tb, ybt);
    assert SameSkeleton(ybt, WithCache(ybt, y.right.height, y.right.balance));
    SkeletonTrans(WithCache(tb, hB, bB), ybt, WithCache(ybt, y.right.height, y.right.balance));
  }

  /** The rotations of the left-heavy arm need a left child, and in the
      double-rotation case a right grandchild under it; `rotate_left` and
      `rotate_right` raise without them. */
  predicate LeftArmDefined<K>(t: Tree<K>) {
    t.Node? && t.left.Node? && (CachedBalance(t.left) < 0 ==> t.left.right.Node?)
  }

  /** The mirror image of `LeftArmDefined`. */
  predicate RightArmDefined<K>(t: Tree<K>) {
    t.Node? && t.right.Node? && (CachedBalance(t.right) > 0 ==> t.right.left.Node?)
  }

  /** The left-heavy arm of the `make_balanced` loop: when the left child leans
      right (the double-rotation case) rotate it left first; then rotate right,
      recomputing every cache after each rotation. */
  function FixLeftHeavy<K(!new)>(t: Tree<K>): (r: Tree<K>)
    requires LeftArmDefined(t)
    ensures Cached(r) && Inorder(r) == Inorder(t) && Keys(r) == Keys(t)
  {
    var l := t.left;
    if CachedBalance(l) < 0 then
      var t1 := t.(left := RotateLeft(l));
      var t2 := Recompute(t1);
      SkeletonFacts(t2, t1);
      var r0 := RotateRight(t2);
      var r := Recompute(r0);
      SkeletonFacts(r, r0);
      r
    else
      var r0 := RotateRight(t);
      var r := Recompute(r0);
      SkeletonFacts(r, r0);
      r
  }

  /** On a tree whose left side is two levels taller and whose subtrees are AVL
      trees with exact caches, the left-heavy arm is defined and yields an AVL
      tree at most one level taller than the left subtree was. */
  lemma FixLeftHeavyShape<K(!new)>(t: Tree<K>)
    requires t.Node? && Balanced(t.left) && Cached(t.left) && Balanced(t.right) && Cached(t.right)
    requires Height(t.left) - Height(t.right) == 2
    ensures LeftArmDefined(t)
    ensures Balanced(FixLeftHeavy(t))
    ensures Height(t.left) <= Height(FixLeftHeavy(t)) <= Height(t.left) + 1
  {
    CachedIsTrue(t.left);
    if CachedBalance(t.left) < 0 {
      DoubleRotationShape(t);
      var t1 := t.(left := RotateLeft(t.left));
      var t2 := Recompute(t1);
      SkeletonFacts(t2, t1);
      RotateRightSkeleton(t2, t1);
      var r0 := RotateRight(t2);
      SkeletonFacts(r0, RotateRight(t1));
      SkeletonFacts(FixLeftHeavy(t), r0);
    } else {
      SingleRotationShape(t);
      SkeletonFacts(FixLeftHeavy(t), RotateRight(t));
    }
  }

  lemma SingleRotationShape<K(!new)>(t: Tree<K>)
    requires t.Node? && Balanced(t.left) && Cached(t.left) && Balanced(t.right) && Cached(t.right)
    requires Height(t.left) - Height(t.right) == 2
    requires CachedBalance(t.left) >= 0
    ensures Balanced(RotateRight(t))
    ensures Height(t.left) <= Height(RotateRight(t)) <= Height(t.left) + 1
  {
    var Node(l, ka, c, _, _) := t;
    var Node(a, kb, tb, hB, bB) := l;
    CachedIsTrue(l);
    SkeletonFacts(WithCache(tb, hB, bB), tb);
  }

  lemma DoubleRotationShape<K(!new)>(t: Tree<K>)
    requires t.Node? && Balanced(t.left) && Cached(t.left) && Balanced(t.right) && Cached(t.right)
    requires Height(t.left) - Height(t.right) == 2
    requires CachedBalance(t.left) < 0
    ensures t.left.right.Node?
    ensures Balanced(RotateRight(t.(left := RotateLeft(t.left))))
    ensures Height(RotateRight(t.(left := RotateLeft(t.left)))) == Height(t.left)
  {
    var Node(l, ka, c, hA, bA) := t;
    var Node(a, kb, tb, hB, bB) := l;
    CachedIsTrue(l);
    var Node(t1, kt, t2, hT, bT) := tb;
    var H := Height(tb);
    assert Height(a) == H - 1 && Height(c) == H - 1 && Height(l) == H + 1;
    assert Balanced(tb) && Balanced(a) && Balanced(c);
    assert Balanced(t1) && Balanced(t2);
    var t1w, t2w := WithCache(t1, hT, bT), WithCache(t2, hB, bB);
    SkeletonFacts(t1w, t1);
    SkeletonFacts(t2w, t2);
    var p := Node(a, kb, t1w, CachedHeight(t1), CachedBalance(t1));
    assert RotateLeft(l) == Node(p, kt, t2, hB, bB);
    var q := Node(t2w, ka, c, CachedHeight(t2), CachedBalance(t2));
    var r := Node(p, kt, q, hA, bA);
    assert RotateRight(t.(left := RotateLeft(l))) == r;
    assert Height(p) == H && Balanced(p);
    assert Height(q) == H && Balanced(q);
    assert Height(r) == H + 1 && Balanced(r);
  }

  /** The right-heavy arm of the `make_balanced` loop: the mirror image of `FixLeftHeavy`. */
  function FixRightHeavy<K(!new)>(t: Tree<K>): (r: Tree<K>)
    requires RightArmDefined(t)
    ensures Cached(r) && Inorder(r) == Inorder(t) && Keys(r) == Keys(t)
  {
    var rt := t.right;
    if CachedBalance(rt) > 0 then
      var t1 := t.(right := RotateRight(rt));
      var t2 := Recompute(t1);
      SkeletonFacts(t2, t1);
      var r0 := RotateLeft(t2);
      var r := Recompute(r0);
      SkeletonFacts(r, r0);
      r
    else
      var r0 := RotateLeft(t);
      var r := Recompute(r0);
      SkeletonFacts(r, r0);
      r
  }

  /** The mirror image of `FixLeftHeavyShape`. */
  lemma FixRightHeavyShape<K(!new)>(t: Tree<K>)
    requires t.Node? && Balanced(t.left) && Cached(t.left) && Balanced(t.right) && Cached(t.right)
    requires Height(t.right) - Height(t.left) == 2
    ensures RightArmDefined(t)
    ensures Balanced(FixRightHeavy(t))
    ensures Height(t.right) <= Height(FixRightHeavy(t)) <= Height(t.right) + 1
  {
    CachedIsTrue(t.right);
    if CachedBalance(t.right) > 0 {
      DoubleRotationShapeMirror(t);
      var t1 := t.(right := RotateRight(t.right));
      var t2 := Recompute(t1);
      SkeletonFacts(t2, t1);
      RotateLeftSkeleton(t2, t1);
      var r0 := RotateLeft(t2);
      SkeletonFacts(r0, RotateLeft(t1));
      SkeletonFacts(FixRightHeavy(t), r0);
    } else {
      SingleRotationShapeMirror(t);
      SkeletonFacts(FixRightHeavy(t), RotateLeft(t));
    }
  }

  lemma SingleRotationShapeMirror<K(!new)>(t: Tree<K>)
    requires t.Node? && Balanced(t.left) && Cached(t.left) && Balanced(t.right) && Cached(t.right)
    requires Height(t.right) - Height(t.left) == 2
    requires CachedBalance(t.right) <= 0
    ensures Balanced(RotateLeft(t))
    ensures Height(t.right) <= Height(RotateLeft(t)) <= Height(t.right) + 1
  {
    var Node(a, ka, rt, _, _) := t;
    var Node(tb, kb, c, hB, bB) := rt;
    CachedIsTrue(rt);
    SkeletonFacts(WithCache(tb, hB, bB), tb);
  }

  lemma DoubleRotationShapeMirror<K(!new)>(t: Tree<K>)
    requires t.Node? && Balanced(t.left) && Cached(t.left) && Balanced(t.right) && Cached(t.right)
    requires Height(t.right) - Height(t.left) == 2
    requires CachedBalance(t.right) > 0
    ensures t.right.left.Node?
    ensures Balanced(RotateLeft(t.(right := RotateRight(t.right))))
    ensures Height(RotateLeft(t.(right := RotateRight(t.right)))) == Height(t.right)
  {
    var Node(a, ka, rt, hA, bA) := t;
    var Node(tb, kb, c, hB, bB) := rt;
    CachedIsTrue(rt);
    var Node(t1, kt, t2, hT, bT) := tb;
    var H := Height(tb);
    assert Height(a) == H - 1 && Height(c) == H - 1 && Height(rt) == H + 1;
    assert Balanced(tb) && Balanced(a) && Balanced(c);
    assert Balanced(t1) && Balanced(t2);
    var t1w, t2w := WithCache(t1, hB, bB), WithCache(t2, hT, bT);
    SkeletonFacts(t1w, t1);
    SkeletonFacts(t2w, t2);
    var q := Node(t2w, kb, c, CachedHeight(t2), CachedBalance(t2));
    assert RotateRight(rt) == Node(t1, kt, q, hB, bB);
    var p := Node(a, ka, t1w, CachedHeight(t1), CachedBalance(t1));
    var r := Node(p, kt, q, hA, bA);
    assert RotateLeft(t.(right := RotateRight(rt))) == r;
    assert Height(p) == H && Balanced(p);
    assert Height(q) == H && Balanced(q);
    assert Height(r) == H + 1 && Balanced(r);
  }

  /** Refreshing exact caches changes nothing. */
  lemma RecomputeLocalIdle<K(!new)>(t: Tree<K>)
    ensures Cached(t) ==> RecomputeLocal(t) == t
  {
    if t.Node? && Cached(t) {
      CachedIsTrue(t);
      CachedIsTrue(t.left);
      CachedIsTrue(t.right);
    }
  }

  /** One pass of the `make_balanced` loop, run only while the cached balance is
      out of range: the left-heavy arm, or else the right-heavy arm. Where a
      rotation would raise, the pass leaves the tree as it is. */
  function BalancePass<K(!new)>(t: Tree<K>): (r: Tree<K>)
    ensures Inorder(r) == Inorder(t) && Keys(r) == Keys(t)
  {
    if t.Nil? then t
    else if CachedBalance(t) > 1 then
      if LeftArmDefined(t) then FixLeftHeavy(t) else t
    else if CachedBalance(t) < -1 then
      if RightArmDefined(t) then FixRightHeavy(t) else t
    else t
  }

  /** With exact caches, AVL subtrees and a height difference of at most two, one
      pass restores the AVL condition (so the loop test then fails), and the
      height is that of the taller subtree or one more. A balanced tree is left as it is. */
  lemma BalancePassShape<K(!new)>(t: Tree<K>)
    requires Cached(t)
    requires t.Node? ==> Balanced(t.left) && Balanced(t.right) && -2 <= Height(t.left) - Height(t.right) <= 2
    ensures Balanced(BalancePass(t)) && Cached(BalancePass(t))
    ensures t.Node? ==> Max(Height(t.left), Height(t.right)) <= Height(BalancePass(t)) <= 1 + Max(Height(t.left), Height(t.right))
    ensures Balanced(t) ==> BalancePass(t) == t
  {
    if t.Node? {
      CachedIsTrue(t);
      if CachedBalance(t) > 1 {
        FixLeftHeavyShape(t);
      } else if CachedBalance(t) < -1 {
        FixRightHeavyShape(t);
      } else {
        assert Balanced(t);
      }
    }
  }

  /** `make_balanced`: refresh this wrapper's caches, then run the rotation loop
      once; `MakeBalancedValid` shows one pass is all the loop runs. */
  function MakeBalanced<K(!new)>(t: Tree<K>): (r: Tree<K>)
    ensures Inorder(r) == Inorder(t) && Keys(r) == Keys(t)
  {
    var t1 := RecomputeLocal(t);
    SkeletonFacts(t1, t);
    BalancePass(t1)
  }

  /** What `make_balanced` is called on: a wrapper whose children are AVL trees
      with exact caches and heights at most two apart. */
  ghost predicate Joinable<K>(t: Tree<K>) {
    t.Node? ==> Valid(t.left) && Valid(t.right) && -2 <= Height(t.left) - Height(t.right) <= 2
  }

  /** On such a wrapper `make_balanced` yields a valid AVL tree whose height is
      that of the taller child or one more (exactly one more when the children
      were already within one), and its loop has ended: the cached balance is in range. */
  lemma MakeBalancedValid<K(!new)>(t: Tree<K>)
    requires Joinable(t)
    ensures Valid(MakeBalanced(t))
    ensures t.Node? ==> Max(Height(t.left), Height(t.right)) <= Height(MakeBalanced(t)) <= 1 + Max(Height(t.left), Height(t.right))
    ensures t.Node? && -1 <= Height(t.left) - Height(t.right) <= 1 ==> Height(MakeBalanced(t)) == 1 + Max(Height(t.left), Height(t.right))
    ensures -1 <= CachedBalance(MakeBalanced(t)) <= 1
  {
    ValidChildren(t);
    var t1 := RecomputeLocal(t);
    SkeletonFacts(t1, t);
    BalancePassShape(t1);
    var r := MakeBalanced(t);
    ValidIff(r);
    CachedIsTrue(r);
  }

  /** On a tree that is already a valid AVL tree, `make_balanced` changes nothing. */
  lemma MakeBalancedIdle<K(!new)>(t: Tree<K>)
    requires Valid(t)
    ensures MakeBalanced(t) == t
  {
    ValidIff(t);
    RecomputeLocalIdle(t);
    BalancePassShape(t);
  }
}
