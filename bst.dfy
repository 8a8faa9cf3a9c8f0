/** Ordering disciplines of the store's trees and the ordinary unbalanced
    binary-search-tree insertion used by the staging tree and the catalogue. */
module Bst {
  import opened Trees

  /** Catalogue trees: every key on the left is smaller than the node's, every
      key on the right is at least the node's (equal keys go right). */
  predicate Ordered<T>(t: Tree<T>)
  {
    t.Nil? ||
    (Ordered(t.lc) && Ordered(t.rc) &&
     (forall k :: k in Keys(t.lc) ==> k < t.key) &&
     (forall k :: k in Keys(t.rc) ==> t.key <= k))
  }

  /** Staging tree: keys strictly increase from left to right. */
  predicate StrictlyOrdered<T>(t: Tree<T>)
  {
    t.Nil? ||
    (StrictlyOrdered(t.lc) && StrictlyOrdered(t.rc) &&
     (forall k :: k in Keys(t.lc) ==> k < t.key) &&
     (forall k :: k in Keys(t.rc) ==> t.key < k))
  }

  /** Plain insertion as add_new_movie and DistributeMovie perform it: descend
      left when the node's key is greater, right otherwise, and hang a new
      leaf on the NULL link reached. */
  function Insert<T>(t: Tree<T>, k: int, v: T): Tree<T>
  {
    if t.Nil? then Leaf(k, v)
    else if t.key > k then t.(lc := Insert(t.lc, k, v))
    else t.(rc := Insert(t.rc, k, v))
  }

  /** The recursive definition is what the source's loop computes: descend to
      `prev` and re-point the link on the side of `k`. */
  lemma {:induction false} InsertIsGraft<T>(t: Tree<T>, k: int, v: T)
    requires t.Node?
    ensures var path := PrevPath(t, k, false);
            var prev := At(t, path);
            prev.Node? &&
            Insert(t, k, v) == Graft(t, path, WithChild(prev, Step(prev.key, k, false), Leaf(k, v)))
    decreases t
  {
    PrevPathEnds(t, k, false);
    var d := Step(t.key, k, false);
    if Child(t, d).Node? {
      InsertIsGraft(Child(t, d), k, v);
      var p := PrevPath(Child(t, d), k, false);
      assert PrevPath(t, k, false) == [d] + p;
      assert ([d] + p)[1..] == p;
    }
  }

  lemma {:induction false} InsertKeys<T>(t: Tree<T>, k: int, v: T)
    ensures Keys(Insert(t, k, v)) == Keys(t) + {k}
  {
    if t.Node? {
      if t.key > k {
        InsertKeys(t.lc, k, v);
      } else {
        InsertKeys(t.rc, k, v);
      }
    }
  }

  lemma {:induction false} InsertContents<T>(t: Tree<T>, k: int, v: T)
    ensures multiset(InOrder(Insert(t, k, v))) == multiset(InOrder(t)) + multiset{(k, v)}
    ensures Size(Insert(t, k, v)) == Size(t) + 1
  {
    if t.Node? {
      var mid := [(t.key, t.val)];
      var l, r := InOrder(t.lc), InOrder(t.rc);
      assert multiset(InOrder(t)) == multiset(l) + multiset(mid) + multiset(r);
      if t.key > k {
        InsertContents(t.lc, k, v);
        var l' := InOrder(Insert(t.lc, k, v));
        assert InOrder(Insert(t, k, v)) == l' + mid + r;
        assert multiset(l' + mid + r) == multiset(l') + multiset(mid) + multiset(r);
      } else {
        InsertContents(t.rc, k, v);
        var r' := InOrder(Insert(t.rc, k, v));
        assert InOrder(Insert(t, k, v)) == l + mid + r';
        assert multiset(l + mid + r') == multiset(l) + multiset(mid) + multiset(r');
      }
    }
  }

  /** Insertion keeps "left < node <= right" whatever the key. */
  lemma {:induction false} InsertOrdered<T>(t: Tree<T>, k: int, v: T)
    requires Ordered(t)
    ensures Ordered(Insert(t, k, v))
  {
    if t.Node? {
      if t.key > k {
        InsertOrdered(t.lc, k, v);
        InsertKeys(t.lc, k, v);
      } else {
        InsertOrdered(t.rc, k, v);
        InsertKeys(t.rc, k, v);
      }
    }
  }

  /** Insertion of a key not yet present keeps keys strictly increasing. */
  lemma {:induction false} InsertStrictlyOrdered<T>(t: Tree<T>, k: int, v: T)
    requires StrictlyOrdered(t) && k !in Keys(t)
    ensures StrictlyOrdered(Insert(t, k, v))
  {
    if t.Node? {
      if t.key > k {
        InsertStrictlyOrdered(t.lc, k, v);
        InsertKeys(t.lc, k, v);
      } else {
        InsertStrictlyOrdered(t.rc, k, v);
        InsertKeys(t.rc, k, v);
      }
    }
  }

  /** A strictly ordered tree lists its keys in strictly increasing order. */
  lemma {:induction false} StrictlyOrderedIncreasing<T>(t: Tree<T>)
    requires StrictlyOrdered(t)
    ensures forall i, j :: 0 <= i < j < |InOrderKeys(t)| ==> InOrderKeys(t)[i] < InOrderKeys(t)[j]
  {
    if t.Node? {
      StrictlyOrderedIncreasing(t.lc);
      StrictlyOrderedIncreasing(t.rc);
      InOrderKeysAreKeys(t.lc);
      InOrderKeysAreKeys(t.rc);
      var l, r := InOrderKeys(t.lc), InOrderKeys(t.rc);
      var s := InOrderKeys(t);
      assert s == l + [t.key] + r;
      forall i, j | 0 <= i < j < |s| ensures s[i] < s[j] {
        if j < |l| {
          assert s[i] == l[i] && s[j] == l[j];
        } else if i > |l| {
          assert s[i] == r[i - |l| - 1] && s[j] == r[j - |l| - 1];
        } else {
          assert s[i] == t.key || s[i] == l[i];
          assert s[j] == t.key || s[j] == r[j - |l| - 1];
        }
      }
    }
  }

  /** A strictly ordered tree is ordered in the catalogue's sense. */
  lemma {:induction false} StrictlyOrderedIsOrdered<T>(t: Tree<T>)
    requires StrictlyOrdered(t)
    ensures Ordered(t)
  {
    if t.Node? {
      StrictlyOrderedIsOrdered(t.lc);
      StrictlyOrderedIsOrdered(t.rc);
    }
  }
}
