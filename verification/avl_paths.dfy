/** Positions in a tree, the search that finds a key's position, and the in-place
    key replacement that `SweepLineStatus.reach_intersection_of` performs on the
    nodes it finds. A position is the sequence of left/right steps from the root. */
module AvlPaths {
  import opened Options
  import opened Orders
  import opened AvlCore
  import opened AvlSearch

  /** One step down from a node. */
  datatype Dir = Left | Right

  /** The subtree reached by following `p` from the root; a path that runs off
      the tree ends at `Nil`. */
  function Subtree<K>(t: Tree<K>, p: seq<Dir>): Tree<K>
    decreases |p|
  {
    if |p| == 0 || t.Nil? then t
    else if p[0] == Left then Subtree(t.left, p[1..])
    else Subtree(t.right, p[1..])
  }

  /** Same links and same cached numbers; only the keys may differ. */
  ghost predicate SameShape<K>(a: Tree<K>, b: Tree<K>) {
    match a
    case Nil => b.Nil?
    case Node(l, _, r, h, bal) =>
      b.Node? && b.height == h && b.balance == bal && SameShape(l, b.left) && SameShape(r, b.right)
  }

  /** The tree search the status structure relies on: smaller keys to the left,
      larger to the right, and the position of the node whose key the comparison
      cannot tell from `k`, or `None` when the search falls off the tree. */
  function Find<K>(lt: (K, K) -> bool, t: Tree<K>, k: K): (r: Option<seq<Dir>>)
    ensures r.Some? ==> Subtree(t, r.value).Node? && Equiv(lt, Subtree(t, r.value).key, k)
  {
    match t
    case Nil => None
    case Node(l, key, rt, _, _) =>
      if lt(k, key) then
        match Find(lt, l, k)
        case None => None
        case Some(p) => assert ([Left] + p)[1..] == p; Some([Left] + p)
      else if lt(key, k) then
        match Find(lt, rt, k)
        case None => None
        case Some(p) => assert ([Right] + p)[1..] == p; Some([Right] + p)
      else
        Some([])
  }

  /** In a search tree the search finds a position exactly when the tree holds a
      key the comparison cannot tell from `k`. */
  lemma {:induction false} FindComplete<K(!new)>(lt: (K, K) -> bool, t: Tree<K>, k: K)
    requires StrictWeakOrder(lt) && SearchTree(lt, t)
    ensures Find(lt, t, k).Some? <==> Member(lt, t, k)
  {
    match t
    case Nil =>
    case Node(l, key, r, _, _) =>
      if lt(k, key) {
        FindComplete(lt, l, k);
        MemberLeft(lt, t, k);
      } else if lt(key, k) {
        FindComplete(lt, r, k);
        MemberRight(lt, t, k);
      } else {
        assert key in Keys(t) && Equiv(lt, key, k);
      }
  }

  /** The node at position `p` with its key replaced by `k`; every link and
      cached number stays as it was. */
  function SetKey<K>(t: Tree<K>, p: seq<Dir>, k: K): (r: Tree<K>)
    ensures SameShape(r, t)
    decreases |p|
  {
    match t
    case Nil => Nil
    case Node(l, key, rt, h, b) =>
      SameShapeRefl(l);
      SameShapeRefl(rt);
      if |p| == 0 then Node(l, k, rt, h, b)
      else if p[0] == Left then Node(SetKey(l, p[1..], k), key, rt, h, b)
      else Node(l, key, SetKey(rt, p[1..], k), h, b)
  }

  lemma {:induction false} SameShapeRefl<K>(t: Tree<K>)
    ensures SameShape(t, t)
  {
    match t
    case Nil =>
    case Node(l, _, r, _, _) =>
      SameShapeRefl(l);
      SameShapeRefl(r);
  }

  /** Trees of the same shape have the same positions, the same size and the
      same heights, and one is a valid AVL tree exactly when the other is. */
  lemma {:induction false} SameShapeFacts<K>(a: Tree<K>, b: Tree<K>)
    requires SameShape(a, b)
    ensures Size(a) == Size(b) && Height(a) == Height(b)
    ensures Valid(a) <==> Valid(b)
    ensures forall p :: Subtree(a, p).Node? <==> Subtree(b, p).Node?
  {
    match a
    case Nil =>
    case Node(l, _, r, _, _) =>
      SameShapeFacts(l, b.left);
      SameShapeFacts(r, b.right);
      forall p ensures Subtree(a, p).Node? <==> Subtree(b, p).Node? {
        if |p| > 0 {
          assert Subtree(a, p) == Subtree(if p[0] == Left then l else r, p[1..]);
        }
      }
  }

  /** After the replacement the node at `p` holds `k`, and every other node
      keeps its key. */
  lemma {:induction false} SetKeyKeys<K>(t: Tree<K>, p: seq<Dir>, k: K)
    requires Subtree(t, p).Node?
    ensures Subtree(SetKey(t, p, k), p).Node? && Subtree(SetKey(t, p, k), p).key == k
    ensures forall q :: q != p && Subtree(t, q).Node? ==>
      Subtree(SetKey(t, p, k), q).Node? && Subtree(SetKey(t, p, k), q).key == Subtree(t, q).key
    decreases |p|
  {
    var Node(l, key, r, h, b) := t;
    var t' := SetKey(t, p, k);
    if |p| > 0 {
      var c := if p[0] == Left then l else r;
      SetKeyKeys(c, p[1..], k);
    }
    forall q | q != p && Subtree(t, q).Node? ensures Subtree(t', q).Node? && Subtree(t', q).key == Subtree(t, q).key {
      if |q| > 0 && |p| > 0 && q[0] == p[0] {
        assert q[1..] != p[1..] by {
          assert q == [q[0]] + q[1..] && p == [p[0]] + p[1..];
        }
      }
    }
  }

  /** The replacement trades one copy of the old key in the in-order sequence's
      multiset of keys for one copy of `k`. */
  lemma {:induction false} SetKeyMultiset<K>(t: Tree<K>, p: seq<Dir>, k: K)
    requires Subtree(t, p).Node?
    ensures multiset(Inorder(SetKey(t, p, k))) + multiset{Subtree(t, p).key}
      == multiset(Inorder(t)) + multiset{k}
    decreases |p|
  {
    var Node(l, key, r, h, b) := t;
    var t' := SetKey(t, p, k);
    var ml, mr := multiset(Inorder(l)), multiset(Inorder(r));
    assert multiset(Inorder(t)) == ml + multiset{key} + mr;
    if |p| == 0 {
      assert multiset(Inorder(t')) == ml + multiset{k} + mr;
    } else if p[0] == Left {
      var l' := SetKey(l, p[1..], k);
      SetKeyMultiset(l, p[1..], k);
      assert Subtree(t, p) == Subtree(l, p[1..]);
      assert multiset(Inorder(t')) == multiset(Inorder(l')) + multiset{key} + mr;
      ExchangeLeft(multiset(Inorder(l')), ml, multiset{key}, mr, multiset{Subtree(t, p).key}, multiset{k});
    } else {
      var r' := SetKey(r, p[1..], k);
      SetKeyMultiset(r, p[1..], k);
      assert Subtree(t, p) == Subtree(r, p[1..]);
      assert multiset(Inorder(t')) == ml + multiset{key} + multiset(Inorder(r'));
      ExchangeRight(ml + multiset{key}, multiset(Inorder(r')), mr, multiset{Subtree(t, p).key}, multiset{k});
    }
  }

  lemma ExchangeLeft<T>(a': multiset<T>, a: multiset<T>, m: multiset<T>, n: multiset<T>, x: multiset<T>, y: multiset<T>)
    requires a' + x == a + y
    ensures a' + m + n + x == a + m + n + y
  {
    forall z ensures (a' + m + n + x)[z] == (a + m + n + y)[z] {
      assert (a' + x)[z] == (a + y)[z];
    }
  }

  lemma ExchangeRight<T>(m: multiset<T>, b': multiset<T>, b: multiset<T>, x: multiset<T>, y: multiset<T>)
    requires b' + x == b + y
    ensures m + b' + x == m + b + y
  {
    forall z ensures (m + b' + x)[z] == (m + b + y)[z] {
      assert (b' + x)[z] == (b + y)[z];
    }
  }

  /** The nodes at `p` and `q` exchange their keys. */
  function SwapKeys<K>(t: Tree<K>, p: seq<Dir>, q: seq<Dir>): (r: Tree<K>)
    requires Subtree(t, p).Node? && Subtree(t, q).Node?
    ensures SameShape(r, t)
  {
    var a, b := Subtree(t, p).key, Subtree(t, q).key;
    SameShapeTrans(SetKey(SetKey(t, p, b), q, a), SetKey(t, p, b), t);
    SetKey(SetKey(t, p, b), q, a)
  }

  lemma {:induction false} SameShapeTrans<K>(a: Tree<K>, b: Tree<K>, c: Tree<K>)
    requires SameShape(a, b) && SameShape(b, c)
    ensures SameShape(a, c)
  {
    match a
    case Nil =>
    case Node(l, _, r, _, _) =>
      SameShapeTrans(l, b.left, c.left);
      SameShapeTrans(r, b.right, c.right);
  }

  /** Swapping keys puts each key at the other position and leaves every other
      node's key alone. */
  lemma SwapKeysKeys<K>(t: Tree<K>, p: seq<Dir>, q: seq<Dir>)
    requires Subtree(t, p).Node? && Subtree(t, q).Node?
    ensures var r := SwapKeys(t, p, q);
      && Subtree(r, p).Node? && Subtree(r, p).key == Subtree(t, q).key
      && Subtree(r, q).Node? && Subtree(r, q).key == Subtree(t, p).key
      && (forall x :: x != p && x != q && Subtree(t, x).Node? ==>
            Subtree(r, x).Node? && Subtree(r, x).key == Subtree(t, x).key)
  {
    var a, b := Subtree(t, p).key, Subtree(t, q).key;
    var t1 := SetKey(t, p, b);
    SetKeyKeys(t, p, b);
    SetKeyKeys(t1, q, a);
  }

  /** Swapping keys keeps the multiset of keys, the size, and AVL validity. */
  lemma SwapKeysMultiset<K>(t: Tree<K>, p: seq<Dir>, q: seq<Dir>)
    requires Subtree(t, p).Node? && Subtree(t, q).Node?
    ensures var r := SwapKeys(t, p, q);
      && multiset(Inorder(r)) == multiset(Inorder(t))
      && Size(r) == Size(t) && (Valid(r) <==> Valid(t))
  {
    var a, b := Subtree(t, p).key, Subtree(t, q).key;
    var t1 := SetKey(t, p, b);
    var r := SetKey(t1, q, a);
    SetKeyKeys(t, p, b);
    assert Subtree(t1, q).Node? && Subtree(t1, q).key == b;
    SetKeyMultiset(t, p, b);
    SetKeyMultiset(t1, q, a);
    Cancel(multiset(Inorder(r)), multiset(Inorder(t)), multiset{b});
    SameShapeTrans(r, t1, t);
    SameShapeFacts(r, t);
  }

  lemma Cancel<T>(a: multiset<T>, b: multiset<T>, x: multiset<T>)
    requires a + x == b + x
    ensures a == b
  {
    forall z ensures a[z] == b[z] {
      assert (a + x)[z] == (b + x)[z];
    }
  }
}
