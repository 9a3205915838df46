/** `SweepLineStatus`: the segments the sweep line currently crosses, kept in an
    AVL tree with a counter. The segment order depends on the sweep position and
    is taken here as any strict weak order `lt` on segment keys `S`. */
module SweepStatus {
  import opened Options
  import opened Orders
  import opened AvlCore
  import opened AvlTree
  import opened AvlSearch
  import opened AvlPaths
  import opened SizedTrees

  type Status<S> = Sized<S>

  /** `SweepLineStatus.add_segment`: the counter goes up exactly when the segment
      was added. */
  function AddSegment<S(!new)>(lt: (S, S) -> bool, st: Status<S>, seg: S): (res: (Status<S>, bool))
    ensures res.0.size == if res.1 then st.size + 1 else st.size
    ensures Keys(res.0.tree) == if res.1 then Keys(st.tree) + {seg} else Keys(st.tree)
  {
    Add(lt, st, seg)
  }

  /** `SweepLineStatus.remove_segment`: the counter goes down exactly when a
      segment was removed. */
  function RemoveSegment<S(!new)>(lt: (S, S) -> bool, st: Status<S>, seg: S): (res: (Status<S>, bool))
    ensures res.0.size == if res.1 then st.size - 1 else st.size
    ensures Keys(res.0.tree) <= Keys(st.tree)
  {
    Remove(lt, st, seg)
  }

  /** Adding and removing keep the status well formed, and succeed exactly when
      the segment was absent and present respectively. */
  lemma AddRemoveSegmentSpec<S(!new)>(lt: (S, S) -> bool, st: Status<S>, seg: S)
    requires StrictWeakOrder(lt) && Inv(lt, st)
    ensures Inv(lt, AddSegment(lt, st, seg).0) && (AddSegment(lt, st, seg).1 <==> !Member(lt, st.tree, seg))
    ensures Inv(lt, RemoveSegment(lt, st, seg).0) && (RemoveSegment(lt, st, seg).1 <==> Member(lt, st.tree, seg))
  {
    AddKeepsInv(lt, st, seg);
    RemoveKeepsInv(lt, st, seg);
  }

  /** `SweepLineStatus.get_above_neighbor`: the key of `successor` of the node
      holding `seg`, which the source asserts is present; that is the least key
      of the node's right subtree, or `None` when that subtree is empty. */
  method GetAboveNeighbor<S>(lt: (S, S) -> bool, st: Status<S>, seg: S) returns (r: Option<S>)
    requires Find(lt, st.tree, seg).Some?
    ensures var n := Subtree(st.tree, Find(lt, st.tree, seg).value);
      r == Min(n.right) && (r.None? <==> n.right.Nil?)
  {
    var n := Subtree(st.tree, Find(lt, st.tree, seg).value);
    var above := Successor(n);
    if above.Some? {
      return Some(above.value.key);
    }
    return None;
  }

  /** `SweepLineStatus.get_below_neighbor`: the key of `predecessor` of the node
      holding `seg`, which is the greatest key of the node's left subtree, or
      `None` when that subtree is empty. */
  method GetBelowNeighbor<S>(lt: (S, S) -> bool, st: Status<S>, seg: S) returns (r: Option<S>)
    requires Find(lt, st.tree, seg).Some?
    ensures var n := Subtree(st.tree, Find(lt, st.tree, seg).value);
      && (r.None? <==> n.left.Nil?)
      && (r.Some? ==> |Inorder(n.left)| > 0 && r.value == Inorder(n.left)[|Inorder(n.left)| - 1])
  {
    var n := Subtree(st.tree, Find(lt, st.tree, seg).value);
    var below := Predecessor(n);
    if below.Some? {
      return Some(below.value.key);
    }
    return None;
  }

  /** The segment directly above `k` in the whole status: the least key above it. */
  function AboveNeighbor<S>(lt: (S, S) -> bool, t: Tree<S>, k: S): (r: Option<S>)
    ensures r.Some? ==> r.value in Keys(t) && lt(k, r.value)
  {
    match t
    case Nil => None
    case Node(l, key, rt, _, _) =>
      if lt(k, key) then
        match AboveNeighbor(lt, l, k)
        case None => Some(key)
        case Some(x) => Some(x)
      else AboveNeighbor(lt, rt, k)
  }

  /** The segment directly below `k` in the whole status: the greatest key below it. */
  function BelowNeighbor<S>(lt: (S, S) -> bool, t: Tree<S>, k: S): (r: Option<S>)
    ensures r.Some? ==> r.value in Keys(t) && lt(r.value, k)
  {
    match t
    case Nil => None
    case Node(l, key, rt, _, _) =>
      if lt(key, k) then
        match BelowNeighbor(lt, rt, k)
        case None => Some(key)
        case Some(x) => Some(x)
      else BelowNeighbor(lt, l, k)
  }

  /** In a search tree, `AboveNeighbor` finds the least key above `k`, and finds
      nothing exactly when no key is above `k`. */
  lemma {:induction false} AboveNeighborIsLeast<S(!new)>(lt: (S, S) -> bool, t: Tree<S>, k: S)
    requires StrictWeakOrder(lt) && SearchTree(lt, t)
    ensures AboveNeighbor(lt, t, k).None? <==> forall e :: e in Keys(t) ==> !lt(k, e)
    ensures AboveNeighbor(lt, t, k).Some? ==>
      forall e :: e in Keys(t) && lt(k, e) ==> e == AboveNeighbor(lt, t, k).value || lt(AboveNeighbor(lt, t, k).value, e)
  {
    match t
    case Nil =>
    case Node(l, key, r, _, _) =>
      AboveNeighborIsLeast(lt, l, k);
      AboveNeighborIsLeast(lt, r, k);
      if lt(k, key) {
        var x := AboveNeighbor(lt, t, k).value;
        assert x == key || lt(x, key);
        forall e | e in Keys(r) ensures lt(x, e) {
          if x != key {
            Trans(lt, x, key, e);
          }
        }
      } else {
        forall e | e in Keys(l) ensures !lt(k, e) {
          assert !lt(k, key);
          if lt(k, e) {
            Trans(lt, k, e, key);
          }
        }
      }
  }

  /** In a search tree, `BelowNeighbor` finds the greatest key below `k`, and
      finds nothing exactly when no key is below `k`. */
  lemma {:induction false} BelowNeighborIsGreatest<S(!new)>(lt: (S, S) -> bool, t: Tree<S>, k: S)
    requires StrictWeakOrder(lt) && SearchTree(lt, t)
    ensures BelowNeighbor(lt, t, k).None? <==> forall e :: e in Keys(t) ==> !lt(e, k)
    ensures BelowNeighbor(lt, t, k).Some? ==>
      forall e :: e in Keys(t) && lt(e, k) ==> e == BelowNeighbor(lt, t, k).value || lt(e, BelowNeighbor(lt, t, k).value)
  {
    match t
    case Nil =>
    case Node(l, key, r, _, _) =>
      BelowNeighborIsGreatest(lt, l, k);
      BelowNeighborIsGreatest(lt, r, k);
      if lt(key, k) {
        var x := BelowNeighbor(lt, t, k).value;
        assert x == key || lt(key, x);
        forall e | e in Keys(l) ensures lt(e, x) {
          if x != key {
            Trans(lt, e, key, x);
          }
        }
      } else {
        forall e | e in Keys(r) ensures !lt(e, k) {
          assert !lt(key, k);
          if lt(e, k) {
            Trans(lt, key, e, k);
          }
        }
      }
  }

  /** The usual order on integers, for the examples below. */
  predicate IntLess(a: int, b: int) {
    a < b
  }

  /** `get_above_neighbor` misses the segment above when the node holding `seg`
      has no right child: with `b` at the root and a smaller `a` as its left
      child, the segment above `a` is `b`, yet the right subtree `successor`
      looks into is empty. */
  lemma AboveNeighborMissed(a: int, b: int)
    requires a < b
    ensures var t := Node(Node(Nil, a, Nil, 0, 0), b, Nil, 1, 1);
      && Inv(IntLess, Sized(t, 2))
      && Find(IntLess, t, a) == Some([Left])
      && Subtree(t, [Left]).right.Nil?
      && AboveNeighbor(IntLess, t, a) == Some(b)
  {
    var l := Node(Nil, a, Nil, 0, 0);
    var t := Node(l, b, Nil, 1, 1);
    var e: Tree<int> := Nil;
    assert Keys(e) == {} && Height(e) == -1 && Valid(e) && SearchTree(IntLess, e);
    assert Keys(l) == {a} && Height(l) == 0 && Valid(l) && SearchTree(IntLess, l);
    assert Keys(t) == {a, b} && Height(t) == 1 && Valid(t);
    assert SearchTree(IntLess, t);
    assert Find(IntLess, l, a) == Some([]);
    assert [Left] + [] == [Left];
    assert AboveNeighbor(IntLess, e, a) == None;
    assert AboveNeighbor(IntLess, l, a) == None;
  }

  /** `get_below_neighbor` misses the segment below when the node holding `seg`
      has no left child: with `a` at the root and a larger `b` as its right
      child. */
  lemma BelowNeighborMissed(a: int, b: int)
    requires a < b
    ensures var t := Node(Nil, a, Node(Nil, b, Nil, 0, 0), 1, -1);
      && Inv(IntLess, Sized(t, 2))
      && Find(IntLess, t, b) == Some([Right])
      && Subtree(t, [Right]).left.Nil?
      && BelowNeighbor(IntLess, t, b) == Some(a)
  {
    var r := Node(Nil, b, Nil, 0, 0);
    var t := Node(Nil, a, r, 1, -1);
    var e: Tree<int> := Nil;
    assert Keys(e) == {} && Height(e) == -1 && Valid(e) && SearchTree(IntLess, e);
    assert Keys(r) == {b} && Height(r) == 0 && Valid(r) && SearchTree(IntLess, r);
    assert Keys(t) == {a, b} && Height(t) == 1 && Valid(t);
    assert SearchTree(IntLess, t);
    assert Find(IntLess, r, b) == Some([]);
    assert [Right] + [] == [Right];
    assert BelowNeighbor(IntLess, e, b) == None;
    assert BelowNeighbor(IntLess, r, b) == None;
  }

  /** `SweepLineStatus.reach_intersection_of`: the nodes holding `upper` and
      `lower` exchange their keys. When either is not found the source fails
      on the missing node; that is `None` here. */
  function ReachIntersectionOf<S>(lt: (S, S) -> bool, st: Status<S>, upper: S, lower: S): (r: Option<Status<S>>)
    ensures r.None? <==> Find(lt, st.tree, upper).None? || Find(lt, st.tree, lower).None?
    ensures r.Some? ==> r.value.size == st.size && SameShape(r.value.tree, st.tree)
  {
    match (Find(lt, st.tree, upper), Find(lt, st.tree, lower))
    case (Some(pu), Some(pl)) => Some(Sized(SwapKeys(st.tree, pu, pl), st.size))
    case _ => None
  }

  /** After the exchange the node that held `upper` holds what the node of
      `lower` held and vice versa, every other node keeps its key, the set of
      keys and the counter are unchanged, and AVL validity is kept. */
  lemma ReachIntersectionOfSpec<S(!new)>(lt: (S, S) -> bool, st: Status<S>, upper: S, lower: S)
    requires ReachIntersectionOf(lt, st, upper, lower).Some?
    ensures var pu, pl := Find(lt, st.tree, upper).value, Find(lt, st.tree, lower).value;
      var t, t' := st.tree, ReachIntersectionOf(lt, st, upper, lower).value.tree;
      && Subtree(t', pu).Node? && Subtree(t', pu).key == Subtree(t, pl).key
      && Subtree(t', pl).Node? && Subtree(t', pl).key == Subtree(t, pu).key
      && (forall x :: x != pu && x != pl && Subtree(t, x).Node? ==>
            Subtree(t', x).Node? && Subtree(t', x).key == Subtree(t, x).key)
      && multiset(Inorder(t')) == multiset(Inorder(t)) && Keys(t') == Keys(t)
      && (Valid(t') <==> Valid(t))
  {
    var pu, pl := Find(lt, st.tree, upper).value, Find(lt, st.tree, lower).value;
    var t, t' := st.tree, SwapKeys(st.tree, pu, pl);
    assert ReachIntersectionOf(lt, st, upper, lower).value.tree == t';
    SwapKeysKeys(t, pu, pl);
    SwapKeysMultiset(t, pu, pl);
    SameMultisetSameKeys(t', t);
  }

  /** Trees whose in-order sequences are permutations of each other hold the same keys. */
  lemma SameMultisetSameKeys<K(!new)>(a: Tree<K>, b: Tree<K>)
    requires multiset(Inorder(a)) == multiset(Inorder(b))
    ensures Keys(a) == Keys(b)
  {
    InorderKeys(a);
    InorderKeys(b);
    forall x ensures x in Keys(a) <==> x in Keys(b) {
      assert x in Inorder(a) <==> x in multiset(Inorder(a));
      assert x in Inorder(b) <==> x in multiset(Inorder(b));
    }
  }
}
