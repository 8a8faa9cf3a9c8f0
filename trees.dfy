/** Linked binary trees as the store builds them out of nodes with `lc` and
    `rc` links: the staging tree of new releases, the six catalogue trees and
    every user's history tree all have this shape. A node keeps the movie
    identifier as its key and the rest of its record as its payload; `Nil` is
    a NULL link. The pointer surgery of the source (re-linking `prev->lc` or
    `prev->rc` at the end of a descent) is a `Graft` at the descent's path. */
module Trees {

  datatype Tree<T> = Nil | Node(lc: Tree<T>, key: int, val: T, rc: Tree<T>)

  datatype Dir = Left | Right

  /** A freshly allocated node: both links NULL. */
  function Leaf<T>(k: int, v: T): Tree<T>
  {
    Node(Nil, k, v, Nil)
  }

  predicate IsLeaf<T>(t: Tree<T>)
  {
    t.Node? && t.lc == Nil && t.rc == Nil
  }

  function Child<T>(t: Tree<T>, d: Dir): (c: Tree<T>)
    requires t.Node?
    ensures c < t
  {
    if d == Left then t.lc else t.rc
  }

  /** The node `t` with its `d` link re-pointed at `s`. */
  function WithChild<T>(t: Tree<T>, d: Dir, s: Tree<T>): Tree<T>
    requires t.Node?
  {
    if d == Left then t.(lc := s) else t.(rc := s)
  }

  /** The direction a descent takes at a node with key `nodeKey` when it
      looks for `x`: left when the node's key is greater, and also when it is
      equal if `tieLeft` holds. The catalogue and the staging tree go right on
      equal keys; the history tree goes left. */
  function Step(nodeKey: int, x: int, tieLeft: bool): (d: Dir)
    ensures d == Left <==> nodeKey > x || (tieLeft && nodeKey == x)
  {
    if nodeKey > x || (tieLeft && nodeKey == x) then Left else Right
  }

  /** The subtree reached by following `path` from the root (NULL once the
      path runs off the tree). */
  function At<T>(t: Tree<T>, path: seq<Dir>): Tree<T>
    decreases path
  {
    if path == [] then t
    else if t.Nil? then Nil
    else At(Child(t, path[0]), path[1..])
  }

  /** `t` with the subtree at `path` replaced by `s`. */
  function Graft<T>(t: Tree<T>, path: seq<Dir>, s: Tree<T>): Tree<T>
    decreases path
  {
    if path == [] then s
    else if t.Nil? then Nil
    else WithChild(t, path[0], Graft(Child(t, path[0]), path[1..], s))
  }

  lemma {:induction false} AtSnoc<T>(t: Tree<T>, path: seq<Dir>, d: Dir)
    requires At(t, path).Node?
    ensures At(t, path + [d]) == Child(At(t, path), d)
    decreases path
  {
    if path != [] {
      assert (path + [d])[0] == path[0];
      assert (path + [d])[1..] == path[1..] + [d];
      AtSnoc(Child(t, path[0]), path[1..], d);
    }
  }

  /** The path from the root to the last real node of a descent for `x`: the
      node `prev` of the source's `while (curr != NULL)` loops, whose link in
      the direction of `x` is NULL. */
  function PrevPath<T>(t: Tree<T>, x: int, tieLeft: bool): seq<Dir>
    requires t.Node?
    decreases t
  {
    var d := Step(t.key, x, tieLeft);
    if Child(t, d).Nil? then [] else [d] + PrevPath(Child(t, d), x, tieLeft)
  }

  lemma {:induction false} PrevPathEnds<T>(t: Tree<T>, x: int, tieLeft: bool)
    requires t.Node?
    ensures var prev := At(t, PrevPath(t, x, tieLeft));
            prev.Node? && Child(prev, Step(prev.key, x, tieLeft)).Nil?
    decreases t
  {
    var d := Step(t.key, x, tieLeft);
    if Child(t, d).Node? {
      PrevPathEnds(Child(t, d), x, tieLeft);
    }
  }

  /** The descent loop shared by add_new_movie, DistributeMovie and
      addMovieToUser: `curr` walks from the root to NULL, `prev` trails one
      node behind, and the path to `prev` is returned. */
  method Descend<T>(t: Tree<T>, x: int, tieLeft: bool) returns (path: seq<Dir>)
    requires t.Node?
    ensures path == PrevPath(t, x, tieLeft)
    ensures At(t, path).Node? && Child(At(t, path), Step(At(t, path).key, x, tieLeft)).Nil?
  {
    var prev, curr := t, t;
    var currPath: seq<Dir> := [];
    path := [];
    while curr != Nil
      invariant prev.Node? && prev == At(t, path)
      invariant curr == At(t, currPath)
      invariant curr.Node? ==> PrevPath(t, x, tieLeft) == currPath + PrevPath(curr, x, tieLeft)
      invariant curr.Nil? ==> path == PrevPath(t, x, tieLeft) && Child(prev, Step(prev.key, x, tieLeft)).Nil?
      decreases curr
    {
      var d := Step(curr.key, x, tieLeft);
      AtSnoc(t, currPath, d);
      DescendStep(PrevPath(t, x, tieLeft), currPath, curr, x, tieLeft);
      prev, path := curr, currPath;
      curr, currPath := Child(curr, d), currPath + [d];
    }
  }

  /** One iteration of Descend: when the descent still has to go on from
      node `n`, reached by `p`, the rest of it is a suffix of the whole one;
      when the next link is NULL, `p` is the whole descent. */
  lemma DescendStep<T>(whole: seq<Dir>, p: seq<Dir>, n: Tree<T>, x: int, tieLeft: bool)
    requires n.Node? && whole == p + PrevPath(n, x, tieLeft)
    ensures var d := Step(n.key, x, tieLeft);
            (Child(n, d).Node? ==> whole == (p + [d]) + PrevPath(Child(n, d), x, tieLeft)) &&
            (Child(n, d).Nil? ==> whole == p)
  {
    var d := Step(n.key, x, tieLeft);
    if Child(n, d).Node? {
      var rest := PrevPath(Child(n, d), x, tieLeft);
      assert PrevPath(n, x, tieLeft) == [d] + rest;
      assert p + ([d] + rest) == (p + [d]) + rest;
    } else {
      assert p + [] == p;
    }
  }

  /** Number of real nodes. */
  function Size<T>(t: Tree<T>): nat
  {
    if t.Nil? then 0 else Size(t.lc) + 1 + Size(t.rc)
  }

  function Keys<T>(t: Tree<T>): set<int>
  {
    if t.Nil? then {} else Keys(t.lc) + {t.key} + Keys(t.rc)
  }

  /** The (key, payload) pairs in in-order. */
  function InOrder<T>(t: Tree<T>): (s: seq<(int, T)>)
    ensures |s| == Size(t)
  {
    if t.Nil? then [] else InOrder(t.lc) + [(t.key, t.val)] + InOrder(t.rc)
  }

  /** The keys in in-order. */
  function InOrderKeys<T>(t: Tree<T>): (s: seq<int>)
    ensures |s| == Size(t)
  {
    if t.Nil? then [] else InOrderKeys(t.lc) + [t.key] + InOrderKeys(t.rc)
  }

  /** The key list is the first components of the in-order pairs. */
  lemma {:induction false} InOrderKeysOfInOrder<T>(t: Tree<T>)
    ensures forall i :: 0 <= i < |InOrderKeys(t)| ==> InOrderKeys(t)[i] == InOrder(t)[i].0
  {
    if t.Node? {
      InOrderKeysOfInOrder(t.lc);
      InOrderKeysOfInOrder(t.rc);
      var ks, ps := InOrderKeys(t), InOrder(t);
      var n := |InOrderKeys(t.lc)|;
      forall i | 0 <= i < |ks| ensures ks[i] == ps[i].0 {
        if i < n {
          assert ks[i] == InOrderKeys(t.lc)[i] && ps[i] == InOrder(t.lc)[i];
        } else if i > n {
          assert ks[i] == InOrderKeys(t.rc)[i - n - 1] && ps[i] == InOrder(t.rc)[i - n - 1];
        }
      }
    }
  }

  lemma {:induction false} InOrderKeysAreKeys<T>(t: Tree<T>)
    ensures forall i :: 0 <= i < |InOrderKeys(t)| ==> InOrderKeys(t)[i] in Keys(t)
    ensures forall k :: k in Keys(t) ==> k in InOrderKeys(t)
  {
    if t.Node? {
      InOrderKeysAreKeys(t.lc);
      InOrderKeysAreKeys(t.rc);
      var s := InOrderKeys(t);
      forall i | 0 <= i < |s| ensures s[i] in Keys(t) {
        if i < |InOrderKeys(t.lc)| {
          assert s[i] == InOrderKeys(t.lc)[i];
        } else if i > |InOrderKeys(t.lc)| {
          assert s[i] == InOrderKeys(t.rc)[i - |InOrderKeys(t.lc)| - 1];
        }
      }
    }
  }
}
