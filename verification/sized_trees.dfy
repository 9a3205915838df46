/** The bookkeeping `EventQueue` and `SweepLineStatus` share: an AVL tree with a
    `size` counter beside it, bumped up or down when the tree reports that an
    insert or a delete took effect. */
module SizedTrees {
  import opened Orders
  import opened AvlCore
  import opened AvlTree
  import opened AvlSearch

  /** A tree with its node counter. */
  datatype Sized<K> = Sized(tree: Tree<K>, size: int)

  /** The counter agrees with the number of keys, and the tree is a valid AVL
      search tree. */
  ghost predicate Inv<K(!new)>(lt: (K, K) -> bool, s: Sized<K>) {
    Valid(s.tree) && SearchTree(lt, s.tree) && s.size == |Keys(s.tree)|
  }

  /** The constructors: an empty tree and a zero counter. */
  function Empty<K>(): (s: Sized<K>)
    ensures Keys(s.tree) == {} && s.size == 0
  {
    Sized(Nil, 0)
  }

  /** The empty structure satisfies the invariant. */
  lemma EmptyInv<K(!new)>(lt: (K, K) -> bool)
    ensures Inv(lt, Empty<K>())
  {
  }

  /** `insert_event` / `add_segment`, with the tree's insert reporting success:
      the counter goes up by one exactly when a key was added. */
  function Add<K(!new)>(lt: (K, K) -> bool, s: Sized<K>, k: K): (res: (Sized<K>, bool))
    ensures res.0.size == if res.1 then s.size + 1 else s.size
    ensures Keys(res.0.tree) == if res.1 then Keys(s.tree) + {k} else Keys(s.tree)
  {
    var (t, added) := Insert(lt, s.tree, k);
    (Sized(t, if added then s.size + 1 else s.size), added)
  }

  /** `remove_event` / `remove_segment`, with the tree's delete reporting success:
      the counter goes down by one exactly when a key was removed. */
  function Remove<K(!new)>(lt: (K, K) -> bool, s: Sized<K>, k: K): (res: (Sized<K>, bool))
    ensures res.0.size == if res.1 then s.size - 1 else s.size
    ensures Keys(res.0.tree) <= Keys(s.tree)
    ensures !res.1 ==> Keys(res.0.tree) == Keys(s.tree)
  {
    var (t, removed) := Delete(lt, s.tree, k);
    (Sized(t, if removed then s.size - 1 else s.size), removed)
  }

  /** Adding keeps the invariant, and succeeds exactly when no key the
      comparison cannot tell from `k` was present. */
  lemma AddKeepsInv<K(!new)>(lt: (K, K) -> bool, s: Sized<K>, k: K)
    requires StrictWeakOrder(lt) && Inv(lt, s)
    ensures Inv(lt, Add(lt, s, k).0)
    ensures Add(lt, s, k).1 <==> !Member(lt, s.tree, k)
  {
    InsertValid(lt, s.tree, k);
    InsertCorrect(lt, s.tree, k);
    if Add(lt, s, k).1 {
      assert k !in Keys(s.tree) by {
        assert Equiv(lt, k, k);
      }
    }
  }

  /** Removing keeps the invariant, succeeds exactly when a key the comparison
      cannot tell from `k` was present, and takes out exactly that key. */
  lemma RemoveKeepsInv<K(!new)>(lt: (K, K) -> bool, s: Sized<K>, k: K)
    requires StrictWeakOrder(lt) && Inv(lt, s)
    ensures Inv(lt, Remove(lt, s, k).0)
    ensures Remove(lt, s, k).1 <==> Member(lt, s.tree, k)
    ensures forall e :: e in Keys(Remove(lt, s, k).0.tree) <==> e in Keys(s.tree) && !Equiv(lt, e, k)
  {
    var t' := Delete(lt, s.tree, k).0;
    DeleteValid(lt, s.tree, k);
    DeleteCorrect(lt, s.tree, k);
    SearchTreeKeyCount(lt, s.tree);
    SearchTreeKeyCount(lt, t');
  }

  /** `insert_event` / `add_segment` as written: the tree's insert returns
      nothing, so the flag read back is falsy and the counter never moves. */
  function AddAsWritten<K(!new)>(lt: (K, K) -> bool, s: Sized<K>, k: K): (res: (Sized<K>, bool))
    ensures res.0.size == s.size && !res.1
    ensures Keys(res.0.tree) == Keys(s.tree) + {k} || Keys(res.0.tree) == Keys(s.tree)
  {
    (Sized(Insert(lt, s.tree, k).0, s.size), false)
  }

  /** `remove_event` / `remove_segment` as written: the counter never moves. */
  function RemoveAsWritten<K(!new)>(lt: (K, K) -> bool, s: Sized<K>, k: K): (res: (Sized<K>, bool))
    ensures res.0.size == s.size && !res.1
    ensures Keys(res.0.tree) <= Keys(s.tree)
  {
    (Sized(Delete(lt, s.tree, k).0, s.size), false)
  }

  /** As written, adding a key to the empty structure leaves the counter at zero
      beside a one-key tree, so the counter no longer counts the keys. */
  lemma AddAsWrittenDrifts<K(!new)>(lt: (K, K) -> bool, k: K)
    ensures Inv(lt, Empty<K>())
    ensures var s' := AddAsWritten(lt, Empty<K>(), k).0;
      s'.size == 0 && Keys(s'.tree) == {k} && !Inv(lt, s')
  {
    assert Insert(lt, Nil, k).1;
  }

  /** As written, removing the only key leaves the counter at one beside an
      empty tree. */
  lemma RemoveAsWrittenDrifts<K(!new)>(lt: (K, K) -> bool, k: K)
    requires StrictWeakOrder(lt)
    ensures var s := Add(lt, Empty<K>(), k).0;
      Inv(lt, s) && s.size == 1
      && var s' := RemoveAsWritten(lt, s, k).0;
      s'.size == 1 && Keys(s'.tree) == {} && !Inv(lt, s')
  {
    var s := Add(lt, Empty<K>(), k).0;
    AddKeepsInv(lt, Empty<K>(), k);
    assert Add(lt, Empty<K>(), k).1;
    RemoveKeepsInv(lt, s, k);
    assert k in Keys(s.tree) && Equiv(lt, k, k);
    assert Remove(lt, s, k).1;
    var s' := RemoveAsWritten(lt, s, k).0;
    assert s'.tree == Remove(lt, s, k).0.tree;
    assert Keys(s'.tree) == {} by {
      forall e | e in Keys(s'.tree) ensures false {
      }
    }
  }
}
