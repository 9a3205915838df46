/** The comparison contract the AVL tree relies on.

    The tree only ever asks `a < b`; `a > b` is asked as `b < a`, and two keys
    count as "the same key" when neither is below the other. For that to behave,
    the comparison has to be a strict weak order. */
module Orders {

  /** Neither key is below the other: the tree treats them as the same key. */
  predicate Equiv<K>(lt: (K, K) -> bool, a: K, b: K) {
    !lt(a, b) && !lt(b, a)
  }

  /** The two three-key laws of a strict weak order, for one triple of keys:
      transitivity, and any third key lies above the lower or below the upper
      of two ordered keys (which makes equivalence transitive). */
  ghost predicate OrderedTriple<K>(lt: (K, K) -> bool, a: K, b: K, c: K) {
    && (lt(a, b) && lt(b, c) ==> lt(a, c))
    && (lt(a, c) ==> lt(a, b) || lt(b, c))
  }

  /** Irreflexive, and the three-key laws hold for every triple. The triple laws
      are stated through `OrderedTriple` so that proofs apply them where they
      name the keys, through `Trans` and the lemmas below. */
  ghost predicate StrictWeakOrder<K(!new)>(lt: (K, K) -> bool) {
    && (forall a :: !lt(a, a))
    && (forall a, b, c :: OrderedTriple(lt, a, b, c))
  }

  /** Transitivity. */
  lemma Trans<K(!new)>(lt: (K, K) -> bool, a: K, b: K, c: K)
    requires StrictWeakOrder(lt)
    requires lt(a, b) && lt(b, c)
    ensures lt(a, c)
  {
    assert OrderedTriple(lt, a, b, c);
  }

  /** Every earlier element is strictly below every later one. */
  ghost predicate StrictlySorted<K>(lt: (K, K) -> bool, s: seq<K>) {
    forall i, j :: 0 <= i < j < |s| ==> lt(s[i], s[j])
  }

  /** A key below some key is below everything equivalent to it. */
  lemma LtEquivLt<K(!new)>(lt: (K, K) -> bool, a: K, b: K, c: K)
    requires StrictWeakOrder(lt)
    requires lt(a, b) && Equiv(lt, b, c)
    ensures lt(a, c)
  {
    assert OrderedTriple(lt, a, c, b);
  }

  /** A key above some key is above everything equivalent to it. */
  lemma EquivLtLt<K(!new)>(lt: (K, K) -> bool, a: K, b: K, c: K)
    requires StrictWeakOrder(lt)
    requires Equiv(lt, a, b) && lt(b, c)
    ensures lt(a, c)
  {
    assert OrderedTriple(lt, b, a, c);
  }

  /** Equivalence is an equivalence relation. */
  lemma EquivTrans<K(!new)>(lt: (K, K) -> bool, a: K, b: K, c: K)
    requires StrictWeakOrder(lt)
    requires Equiv(lt, a, b) && Equiv(lt, b, c)
    ensures Equiv(lt, a, c) && Equiv(lt, c, a)
  {
    assert OrderedTriple(lt, a, b, c) && OrderedTriple(lt, c, b, a);
  }

  /** Ordered keys are never equivalent, and never ordered the other way. */
  lemma LtNotEquiv<K(!new)>(lt: (K, K) -> bool, a: K, b: K)
    requires StrictWeakOrder(lt)
    requires lt(a, b)
    ensures !Equiv(lt, a, b) && !Equiv(lt, b, a) && !lt(b, a)
  {
    assert OrderedTriple(lt, a, b, a);
  }
}
