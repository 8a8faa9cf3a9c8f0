/** A user's history tree. Ratings are recorded by descending to a leaf and
    splitting it: the leaf keeps its own record, becomes an internal node and
    receives two new leaves, the new rating and a copy of itself. Internal
    nodes thus hold stale copies that only route later descents. */
module History {
  import opened Trees

  /** movieInfoUser_t without its identifier: the category tag and the score
      this user gave the movie. */
  datatype Rating = Rating(category: int, sumScore: int)

  /** Every node has two children or none: splitting always adds a pair. */
  predicate Full(t: Tree<Rating>)
  {
    t.Nil? || IsLeaf(t) || (t.lc.Node? && t.rc.Node? && Full(t.lc) && Full(t.rc))
  }

  /** Every node's identifier is at least all identifiers on its left and at
      most all identifiers on its right. */
  predicate Routed(t: Tree<Rating>)
  {
    t.Nil? ||
    (Routed(t.lc) && Routed(t.rc) &&
     (forall k :: k in Keys(t.lc) ==> k <= t.key) &&
     (forall k :: k in Keys(t.rc) ==> t.key <= k))
  }

  /** The leaves in in-order: the ratings the history shows. */
  function Leaves(t: Tree<Rating>): seq<(int, Rating)>
  {
    if t.Nil? then []
    else if IsLeaf(t) then [(t.key, t.val)]
    else Leaves(t.lc) + Leaves(t.rc)
  }

  function LeafKeys(t: Tree<Rating>): seq<int>
  {
    if t.Nil? then []
    else if IsLeaf(t) then [t.key]
    else LeafKeys(t.lc) + LeafKeys(t.rc)
  }

  /** The leaf key list is the first components of the leaves. */
  lemma {:induction false} LeafKeysOfLeaves(t: Tree<Rating>)
    ensures |LeafKeys(t)| == |Leaves(t)|
    ensures forall i :: 0 <= i < |LeafKeys(t)| ==> LeafKeys(t)[i] == Leaves(t)[i].0
  {
    if t.Node? && !IsLeaf(t) {
      LeafKeysOfLeaves(t.lc);
      LeafKeysOfLeaves(t.rc);
      var ks, ps := LeafKeys(t), Leaves(t);
      var n := |LeafKeys(t.lc)|;
      forall i | 0 <= i < |ks| ensures ks[i] == ps[i].0 {
        if i < n {
          assert ks[i] == LeafKeys(t.lc)[i] && ps[i] == Leaves(t.lc)[i];
        } else {
          assert ks[i] == LeafKeys(t.rc)[i - n] && ps[i] == Leaves(t.rc)[i - n];
        }
      }
    }
  }

  /** The last part of addMovieToUser, at the node `prev` where the descent
      left the tree: the same identifier overwrites the score only; a new one
      turns `prev` into an internal node (keeping its own record) with the new
      rating on the side the descent was heading and a copy of `prev` on the
      other side. */
  function Attach(prev: Tree<Rating>, isLeft: bool, x: int, v: Rating): Tree<Rating>
    requires prev.Node?
  {
    if prev.key == x then prev.(val := prev.val.(sumScore := v.sumScore))
    else if isLeft then Node(Leaf(x, v), prev.key, prev.val, Leaf(prev.key, prev.val))
    else Node(Leaf(prev.key, prev.val), prev.key, prev.val, Leaf(x, v))
  }

  /** addMovieToUser on a history `t`: the first rating becomes the root;
      otherwise descend (left when the node's identifier is >= x) until the
      next link is NULL and attach there. */
  function Rate(t: Tree<Rating>, x: int, v: Rating): Tree<Rating>
    decreases t
  {
    if t.Nil? then Leaf(x, v)
    else
      var d := Step(t.key, x, true);
      if Child(t, d).Nil? then Attach(t, d == Left, x, v)
      else WithChild(t, d, Rate(Child(t, d), x, v))
  }

  /** The node where the descent for `x` leaves the tree. */
  function Target(t: Tree<Rating>, x: int): (r: Tree<Rating>)
    requires t.Node?
    ensures r.Node?
    decreases t
  {
    var c := Child(t, Step(t.key, x, true));
    if c.Nil? then t else Target(c, x)
  }

  lemma {:induction false} RateIsGraft(t: Tree<Rating>, x: int, v: Rating)
    requires t.Node?
    ensures var path := PrevPath(t, x, true);
            var prev := At(t, path);
            prev == Target(t, x) &&
            Rate(t, x, v) == Graft(t, path, Attach(prev, Step(prev.key, x, true) == Left, x, v))
    decreases t
  {
    var d := Step(t.key, x, true);
    if Child(t, d).Node? {
      RateIsGraft(Child(t, d), x, v);
      var p := PrevPath(Child(t, d), x, true);
      assert PrevPath(t, x, true) == [d] + p;
      assert ([d] + p)[0] == d && ([d] + p)[1..] == p;
    }
  }

  /** In a full history the descent always ends at a leaf. */
  lemma {:induction false} TargetIsLeaf(t: Tree<Rating>, x: int)
    requires Full(t) && t.Node?
    ensures IsLeaf(Target(t, x))
    decreases t
  {
    var c := Child(t, Step(t.key, x, true));
    if c.Node? {
      TargetIsLeaf(c, x);
    }
  }

  /** Recording a rating keeps every node with two children or none. */
  lemma {:induction false} RateFull(t: Tree<Rating>, x: int, v: Rating)
    requires Full(t)
    ensures Full(Rate(t, x, v))
    decreases t
  {
    if t.Node? {
      var d := Step(t.key, x, true);
      if Child(t, d).Node? {
        RateFull(Child(t, d), x, v);
      }
    }
  }

  lemma {:induction false} RateKeys(t: Tree<Rating>, x: int, v: Rating)
    ensures Keys(Rate(t, x, v)) <= Keys(t) + {x}
    decreases t
  {
    if t.Node? {
      var d := Step(t.key, x, true);
      if Child(t, d).Node? {
        RateKeys(Child(t, d), x, v);
      }
    }
  }

  /** Recording a rating keeps the routing order of identifiers. */
  lemma {:induction false} RateRouted(t: Tree<Rating>, x: int, v: Rating)
    requires Routed(t)
    ensures Routed(Rate(t, x, v))
    decreases t
  {
    if t.Node? {
      var d := Step(t.key, x, true);
      if Child(t, d).Node? {
        RateRouted(Child(t, d), x, v);
        RateKeys(Child(t, d), x, v);
      }
    }
  }

  /** A rating for an identifier the descent does not end on adds exactly one
      leaf, the new rating, and loses none. */
  lemma {:induction false} RateLeavesNew(t: Tree<Rating>, x: int, v: Rating)
    requires Full(t)
    requires t.Node? ==> Target(t, x).key != x
    ensures multiset(Leaves(Rate(t, x, v))) == multiset(Leaves(t)) + multiset{(x, v)}
    decreases t
  {
    if t.Node? {
      var d := Step(t.key, x, true);
      var c := Child(t, d);
      if c.Nil? {
        assert IsLeaf(t) && Target(t, x) == t;
        if d == Left {
          assert Leaves(Rate(t, x, v)) == [(x, v), (t.key, t.val)];
        } else {
          assert Leaves(Rate(t, x, v)) == [(t.key, t.val), (x, v)];
        }
      } else {
        assert Target(t, x) == Target(c, x);
        RateLeavesNew(c, x, v);
        RateShape(c, x, v);
        var l, r := Leaves(t.lc), Leaves(t.rc);
        assert Leaves(t) == l + r;
        if d == Left {
          var l' := Leaves(Rate(c, x, v));
          assert Leaves(Rate(t, x, v)) == l' + r;
          assert multiset(l' + r) == multiset(l') + multiset(r);
        } else {
          var r' := Leaves(Rate(c, x, v));
          assert Leaves(Rate(t, x, v)) == l + r';
          assert multiset(l + r') == multiset(l) + multiset(r');
        }
      }
    }
  }

  /** The position, among the leaves, of the leaf a descent for `x` ends on. */
  function LeafIndex(t: Tree<Rating>, x: int): nat
    requires Full(t) && t.Node?
    decreases t
  {
    var d := Step(t.key, x, true);
    var c := Child(t, d);
    if c.Nil? then 0
    else if d == Left then LeafIndex(c, x)
    else |Leaves(t.lc)| + LeafIndex(c, x)
  }

  /** A re-rating replaces, in place, the score of the leaf the descent ends
      on (its category is kept) and changes no other leaf. */
  lemma {:induction false} RateLeavesRerate(t: Tree<Rating>, x: int, v: Rating)
    requires Full(t) && t.Node? && Target(t, x).key == x
    ensures var w, i := Target(t, x).val, LeafIndex(t, x);
            i < |Leaves(t)| && Leaves(t)[i] == (x, w) &&
            Leaves(Rate(t, x, v)) == Leaves(t)[i := (x, w.(sumScore := v.sumScore))]
    decreases t
  {
    var w := Target(t, x).val;
    var d := Step(t.key, x, true);
    var c := Child(t, d);
    if c.Nil? {
      assert IsLeaf(t) && Target(t, x) == t;
      assert Leaves(Rate(t, x, v)) == [(x, w.(sumScore := v.sumScore))];
    } else {
      assert Target(t, x) == Target(c, x);
      RateLeavesRerate(c, x, v);
      RateShape(c, x, v);
      LeavesRelink(t, d, Rate(c, x, v), LeafIndex(c, x), (x, w.(sumScore := v.sumScore)));
    }
  }

  /** Replacing one child of an internal node by a non-empty tree whose
      leaves differ at one position changes the node's leaves at the
      matching position. */
  lemma LeavesRelink(t: Tree<Rating>, d: Dir, c': Tree<Rating>, j: nat, e: (int, Rating))
    requires t.Node? && t.lc.Node? && t.rc.Node? && c'.Node?
    requires j < |Leaves(Child(t, d))| && Leaves(c') == Leaves(Child(t, d))[j := e]
    ensures var i := if d == Left then j else |Leaves(t.lc)| + j;
            i < |Leaves(t)| && Leaves(t)[i] == Leaves(Child(t, d))[j] &&
            Leaves(WithChild(t, d, c')) == Leaves(t)[i := e]
  {
    var l, r := Leaves(t.lc), Leaves(t.rc);
    if d == Left {
      assert Leaves(c') + r == (l + r)[j := e];
    } else {
      assert l + Leaves(c') == (l + r)[|l| + j := e];
    }
  }

  /** Recording into a non-empty tree leaves a non-empty tree that is not a
      leaf unless it was a leaf being re-rated. */
  lemma RateShape(t: Tree<Rating>, x: int, v: Rating)
    requires t.Node?
    ensures Rate(t, x, v).Node?
    ensures !IsLeaf(t) ==> !IsLeaf(Rate(t, x, v))
  {
  }

  lemma {:induction false} TargetInLeaves(t: Tree<Rating>, x: int)
    requires Full(t) && t.Node?
    ensures (Target(t, x).key, Target(t, x).val) in Leaves(t)
    decreases t
  {
    var c := Child(t, Step(t.key, x, true));
    if c.Node? {
      TargetInLeaves(c, x);
    }
  }

  /** The number of leaves grows by exactly one unless the rating is a
      re-rating. */
  lemma RateLeafCount(t: Tree<Rating>, x: int, v: Rating)
    requires Full(t)
    ensures |Leaves(Rate(t, x, v))| ==
            |Leaves(t)| + (if t.Node? && Target(t, x).key == x then 0 else 1)
  {
    if t.Node? && Target(t, x).key == x {
      RateLeavesRerate(t, x, v);
    } else {
      RateLeavesNew(t, x, v);
    }
  }

  lemma {:induction false} LeafKeysInKeys(t: Tree<Rating>)
    ensures forall i :: 0 <= i < |LeafKeys(t)| ==> LeafKeys(t)[i] in Keys(t)
  {
    if t.Node? && !IsLeaf(t) {
      LeafKeysInKeys(t.lc);
      LeafKeysInKeys(t.rc);
      var l, r := LeafKeys(t.lc), LeafKeys(t.rc);
      forall i | 0 <= i < |l + r| ensures (l + r)[i] in Keys(t) {
        if i < |l| {
          assert (l + r)[i] == l[i];
        } else {
          assert (l + r)[i] == r[i - |l|];
        }
      }
    }
  }

  /** Read left to right, the leaves' identifiers never decrease. */
  lemma {:induction false} LeafKeysSorted(t: Tree<Rating>)
    requires Routed(t)
    ensures forall i, j :: 0 <= i < j < |LeafKeys(t)| ==> LeafKeys(t)[i] <= LeafKeys(t)[j]
  {
    if t.Node? && !IsLeaf(t) {
      LeafKeysSorted(t.lc);
      LeafKeysSorted(t.rc);
      LeafKeysInKeys(t.lc);
      LeafKeysInKeys(t.rc);
      var l, r := LeafKeys(t.lc), LeafKeys(t.rc);
      var s := l + r;
      forall i, j | 0 <= i < j < |s| ensures s[i] <= s[j] {
        if j < |l| {
          assert s[i] == l[i] && s[j] == l[j];
        } else if i >= |l| {
          assert s[i] == r[i - |l|] && s[j] == r[j - |l|];
        } else {
          assert s[i] == l[i] && s[j] == r[j - |l|];
          assert l[i] <= t.key <= r[j - |l|];
        }
      }
    }
  }

  // ---------------------------------------------------------------------
  // user_stats: inOrderFindStats adds up every node, internal copies too.

  function ScoreSum(t: Tree<Rating>): int
  {
    if t.Nil? then 0 else ScoreSum(t.lc) + t.val.sumScore + ScoreSum(t.rc)
  }

  /** A full history with n leaves has 2n - 1 nodes, so the node count that
      user_stats divides by is not the number of ratings once there are two. */
  lemma {:induction false} FullSize(t: Tree<Rating>)
    requires Full(t)
    ensures t.Node? ==> Size(t) == 2 * |Leaves(t)| - 1
    ensures t.Nil? <==> Size(t) == 0
  {
    if t.Node? && !IsLeaf(t) {
      FullSize(t.lc);
      FullSize(t.rc);
    }
  }

  /** The recursive accumulation of inOrderFindStats, with its two `int*`
      accumulators as parameters and results. */
  method FindStats(t: Tree<Rating>, scoreSum: int, counter: int) returns (scoreSum': int, counter': int)
    ensures scoreSum' == scoreSum + ScoreSum(t) && counter' == counter + Size(t)
    decreases t
  {
    scoreSum', counter' := scoreSum, counter;
    if t.Nil? {
      return;
    }
    scoreSum', counter' := FindStats(t.lc, scoreSum', counter');
    scoreSum', counter' := FindStats(t.rc, scoreSum', counter');
    scoreSum', counter' := scoreSum' + t.val.sumScore, counter' + 1;
  }

  /** addMovieToUser: the descent is the shared loop, the last step re-links
      `prev`. */
  method AddMovieToUser(h: Tree<Rating>, category: int, x: int, score: int) returns (h': Tree<Rating>)
    ensures h' == Rate(h, x, Rating(category, score))
  {
    var v := Rating(category, score);
    if h.Nil? {
      return Leaf(x, v);
    }
    var path := Descend(h, x, true);
    var prev := At(h, path);
    var isLeft := Step(prev.key, x, true) == Left;
    RateIsGraft(h, x, v);
    h' := Graft(h, path, Attach(prev, isLeft, x, v));
  }

  // ---------------------------------------------------------------------
  // Two worked histories.

  /** Rating x, then a smaller y, then x again leaves two leaves for x: the
      third descent turns left at the root (x >= x) and ends at y's leaf. */
  lemma DuplicateLeaves(x: int, y: int, cx: int, cy: int, s1: int, s2: int, s3: int)
    requires y < x
    ensures var h := Rate(Rate(Rate(Nil, x, Rating(cx, s1)), y, Rating(cy, s2)), x, Rating(cx, s3));
            LeafKeys(h) == [y, x, x]
  {
    var vx, vy, vz := Rating(cx, s1), Rating(cy, s2), Rating(cx, s3);
    var h1 := Rate(Nil, x, vx);
    assert h1 == Leaf(x, vx);
    var h2 := Rate(h1, y, vy);
    assert h2 == Node(Leaf(y, vy), x, vx, Leaf(x, vx));
    assert Rate(Leaf(y, vy), x, vz) == Node(Leaf(y, vy), y, vy, Leaf(x, vz));
    var h3 := Rate(h2, x, vz);
    assert h3 == Node(Node(Leaf(y, vy), y, vy, Leaf(x, vz)), x, vx, Leaf(x, vx));
    assert LeafKeys(h3.lc) == [y, x];
  }

  /** Ratings (1, 4) then (2, 10): three nodes whose scores add up to 18, so
      user_stats reports 18 / 3 rather than the mean 14 / 2 of the ratings. */
  lemma StatsCountInternalCopies(c1: int, c2: int)
    ensures var h := Rate(Rate(Nil, 1, Rating(c1, 4)), 2, Rating(c2, 10));
            ScoreSum(h) == 18 && Size(h) == 3 && |Leaves(h)| == 2
  {
    var h1 := Rate(Nil, 1, Rating(c1, 4));
    assert h1 == Leaf(1, Rating(c1, 4));
    var h := Rate(h1, 2, Rating(c2, 10));
    assert h == Node(Leaf(1, Rating(c1, 4)), 1, Rating(c1, 4), Leaf(2, Rating(c2, 10)));
    assert ScoreSum(h.lc) == 4 && ScoreSum(h.rc) == 10;
    assert Size(h.lc) == 1 && Size(h.rc) == 1;
  }
}
