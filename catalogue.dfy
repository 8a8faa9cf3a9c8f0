/** The movie catalogue (six category trees terminated by a shared sentinel)
    and the staging tree of new releases that is published into it. */
module Catalogue {
  import opened Trees
  import opened Bst

  /** Identifier stored in the shared sentinel node of the six category trees.
      The sentinel itself is `Nil`; this constant is what the descents of
      search_movie and editeMovie compare identifiers against. */
  const Sentinel: int := -1

  /** HORROR, SCIENCE-FICTION, DRAMA, ROMANCE, DOCUMENTARY, COMEDY. */
  const CategoryCount: int := 6

  /** The payload of a catalogue node (movieInfo_t without its identifier). */
  datatype Counters = Counters(year: int, watchedCounter: int, sumScore: int)

  /** The payload of a staging node: its category tag and release year. */
  datatype Staged = Staged(category: int, year: int)

  /** A catalogue record as makeMovie creates it: nobody has rated it yet. */
  function Unrated(year: int): Counters
  {
    Counters(year, 0, 0)
  }

  /** Every staged movie carries one of the six category tags. */
  predicate Categorised(t: Tree<Staged>)
  {
    t.Nil? ||
    (0 <= t.val.category < CategoryCount && Categorised(t.lc) && Categorised(t.rc))
  }

  /** InOrderFoundNewMovieTree: visits every node, whatever the ordering. */
  function Found<T>(t: Tree<T>, x: int): (r: bool)
    ensures r <==> x in Keys(t)
  {
    if t.Nil? then false
    else t.key == x || Found(t.lc, x) || Found(t.rc, x)
  }

  lemma {:induction false} InsertCategorised(t: Tree<Staged>, k: int, s: Staged)
    requires Categorised(t) && 0 <= s.category < CategoryCount
    ensures Categorised(Insert(t, k, s))
  {
    if t.Node? {
      if t.key > k {
        InsertCategorised(t.lc, k, s);
      } else {
        InsertCategorised(t.rc, k, s);
      }
    }
  }

  // ---------------------------------------------------------------------
  // The descent of search_movie and editeMovie: it stops at the sentinel,
  // at any node whose identifier equals the sentinel's, or at a match.

  predicate ProbeStops(t: Tree<Counters>, x: int)
  {
    t.Nil? || t.key == Sentinel || t.key == x
  }

  function ProbePath(t: Tree<Counters>, x: int): seq<Dir>
    decreases t
  {
    if ProbeStops(t, x) then []
    else
      var d := Step(t.key, x, false);
      [d] + ProbePath(Child(t, d), x)
  }

  /** The `while` loop of search_movie and editeMovie. */
  method Probe(t: Tree<Counters>, x: int) returns (path: seq<Dir>)
    ensures path == ProbePath(t, x)
    ensures ProbeStops(At(t, path), x)
  {
    var curr := t;
    path := [];
    while !ProbeStops(curr, x)
      invariant curr == At(t, path)
      invariant ProbePath(t, x) == path + ProbePath(curr, x)
      decreases curr
    {
      var d := Step(curr.key, x, false);
      AtSnoc(t, path, d);
      assert ProbePath(curr, x) == [d] + ProbePath(Child(curr, d), x);
      assert path + ([d] + ProbePath(Child(curr, d), x)) == (path + [d]) + ProbePath(Child(curr, d), x);
      curr, path := Child(curr, d), path + [d];
    }
    assert ProbePath(curr, x) == [];
  }

  /** On an ordered tree with no real node carrying the sentinel's identifier,
      the descent for an ordinary identifier reaches a real node exactly when
      the identifier is in the tree, and that node is the match. */
  lemma {:induction false} ProbeFinds(t: Tree<Counters>, x: int)
    requires Ordered(t) && Sentinel !in Keys(t) && x != Sentinel
    ensures At(t, ProbePath(t, x)).Node? <==> x in Keys(t)
    ensures At(t, ProbePath(t, x)).Node? ==> At(t, ProbePath(t, x)).key == x
    decreases t
  {
    if !ProbeStops(t, x) {
      var d := Step(t.key, x, false);
      ProbeFinds(Child(t, d), x);
      var p := ProbePath(Child(t, d), x);
      assert ([d] + p)[0] == d && ([d] + p)[1..] == p;
      assert At(t, [d] + p) == At(Child(t, d), p);
    }
  }

  /** The node the descent of search_movie and editeMovie stops at: NULL for
      the sentinel, otherwise a real node. */
  function ProbeHit(t: Tree<Counters>, x: int): Tree<Counters>
  {
    At(t, ProbePath(t, x))
  }

  /** editeMovie's update of a rated movie: one more view, `score` more points. */
  function Bump(c: Counters, score: int): Counters
  {
    Counters(c.year, c.watchedCounter + 1, c.sumScore + score)
  }

  /** The tree after editeMovie has updated the counters of the node it
      stopped at. */
  function Edited(t: Tree<Counters>, x: int, score: int): Tree<Counters>
    requires ProbeHit(t, x).Node?
  {
    var hit := ProbeHit(t, x);
    Graft(t, ProbePath(t, x), hit.(val := Bump(hit.val, score)))
  }

  /** Replacing the payload of one node keeps every key, hence the ordering. */
  lemma {:induction false} RetagKeys<T>(t: Tree<T>, path: seq<Dir>, v: T)
    requires At(t, path).Node?
    ensures Keys(Graft(t, path, At(t, path).(val := v))) == Keys(t)
    ensures Ordered(t) ==> Ordered(Graft(t, path, At(t, path).(val := v)))
    decreases path
  {
    if path != [] {
      RetagKeys(Child(t, path[0]), path[1..], v);
    }
  }

  /** The in-order position of the node at `path`. */
  function PathIndex<T>(t: Tree<T>, path: seq<Dir>): nat
    requires At(t, path).Node?
    decreases path
  {
    if path == [] then |InOrder(t.lc)|
    else if path[0] == Left then PathIndex(t.lc, path[1..])
    else |InOrder(t.lc)| + 1 + PathIndex(t.rc, path[1..])
  }

  /** Replacing the payload of one node changes that record, in place, and
      no other. */
  lemma {:induction false} RetagContents<T>(t: Tree<T>, path: seq<Dir>, v: T)
    requires At(t, path).Node?
    ensures var n, i := At(t, path), PathIndex(t, path);
            i < |InOrder(t)| && InOrder(t)[i] == (n.key, n.val) &&
            InOrder(Graft(t, path, n.(val := v))) == InOrder(t)[i := (n.key, v)]
    decreases path
  {
    var n := At(t, path);
    if path == [] {
      assert InOrder(t.(val := v)) == InOrder(t.lc) + [(t.key, v)] + InOrder(t.rc);
    } else {
      var c := Child(t, path[0]);
      assert n == At(c, path[1..]);
      RetagContents(c, path[1..], v);
      var c' := Graft(c, path[1..], n.(val := v));
      assert Graft(t, path, n.(val := v)) == WithChild(t, path[0], c');
      RelinkUpdated(t, path[0], c', PathIndex(c, path[1..]), (n.key, v));
    }
  }

  /** A subtree whose in-order list changed at position j changes the whole
      tree's list at the matching position. */
  lemma RelinkUpdated<T>(t: Tree<T>, d: Dir, c': Tree<T>, j: nat, x: (int, T))
    requires t.Node? && j < |InOrder(Child(t, d))|
    requires InOrder(c') == InOrder(Child(t, d))[j := x]
    ensures var i := if d == Left then j else |InOrder(t.lc)| + 1 + j;
            i < |InOrder(t)| && InOrder(t)[i] == InOrder(Child(t, d))[j] &&
            InOrder(WithChild(t, d, c')) == InOrder(t)[i := x]
  {
    var l, mid, r := InOrder(t.lc), [(t.key, t.val)], InOrder(t.rc);
    if d == Left {
      assert InOrder(c') + mid + r == (l + mid + r)[j := x];
    } else {
      assert l + mid + InOrder(c') == (l + mid + r)[|l| + 1 + j := x];
    }
  }

  /** The descent of newMovieExistsInCategoryArray, which tests for NULL
      rather than for the sentinel: it stops at a real node that matches;
      on reaching the sentinel it stops there only if `x` equals the
      sentinel's identifier, and otherwise steps past it to NULL, which is
      reported as "exists". */
  method ExistsInCategory(t: Tree<Counters>, x: int) returns (r: int)
    ensures t.Nil? ==> r == 0
    ensures t.Node? && x != Sentinel ==> r == 1
    ensures Ordered(t) && x == Sentinel ==> (r == 1 <==> x in Keys(t))
  {
    if t.Nil? {
      return 0;
    }
    var curr := t;
    while curr.Node? && curr.key != x
      invariant Ordered(t) ==> Ordered(curr) && (x in Keys(t) <==> x in Keys(curr))
      decreases curr
    {
      curr := Child(curr, Step(curr.key, x, false));
    }
    if curr.Node? {
      r := 1;
    } else if x == Sentinel {
      r := 0;
    } else {
      r := 1;
    }
  }

  // ---------------------------------------------------------------------
  // Publication of the staging tree.

  /** DistributeMovie: the staged movie goes into its category's tree as an
      unrated record. */
  function Publish(cats: seq<Tree<Counters>>, k: int, s: Staged): (r: seq<Tree<Counters>>)
    requires |cats| == CategoryCount && 0 <= s.category < CategoryCount
    ensures |r| == CategoryCount
  {
    cats[s.category := Insert(cats[s.category], k, Unrated(s.year))]
  }

  /** postOrderDistribute: left subtree, right subtree, then the node. */
  function DistributeAll(cats: seq<Tree<Counters>>, t: Tree<Staged>): (r: seq<Tree<Counters>>)
    requires |cats| == CategoryCount && Categorised(t)
    ensures |r| == CategoryCount
    decreases t
  {
    if t.Nil? then cats
    else Publish(DistributeAll(DistributeAll(cats, t.lc), t.rc), t.key, t.val)
  }

  /** The catalogue records that publishing `t` adds to category `c`. */
  function Published(t: Tree<Staged>, c: int): multiset<(int, Counters)>
  {
    if t.Nil? then multiset{}
    else Published(t.lc, c) + Published(t.rc, c) +
         (if t.val.category == c then multiset{(t.key, Unrated(t.val.year))} else multiset{})
  }

  function TotalSize(cats: seq<Tree<Counters>>): nat
  {
    if cats == [] then 0 else Size(cats[0]) + TotalSize(cats[1..])
  }

  lemma {:induction false} TotalSizeUpdate(cats: seq<Tree<Counters>>, c: int, t: Tree<Counters>)
    requires 0 <= c < |cats|
    ensures TotalSize(cats[c := t]) == TotalSize(cats) - Size(cats[c]) + Size(t)
  {
    if c > 0 {
      assert cats[c := t][1..] == cats[1..][c - 1 := t];
      TotalSizeUpdate(cats[1..], c - 1, t);
    } else {
      assert cats[c := t][1..] == cats[1..];
    }
  }

  /** Publishing keeps every category tree ordered. */
  lemma {:induction false} DistributeOrdered(cats: seq<Tree<Counters>>, t: Tree<Staged>)
    requires |cats| == CategoryCount && Categorised(t)
    requires forall c :: 0 <= c < CategoryCount ==> Ordered(cats[c])
    ensures forall c :: 0 <= c < CategoryCount ==> Ordered(DistributeAll(cats, t)[c])
    decreases t
  {
    if t.Node? {
      DistributeOrdered(cats, t.lc);
      var c1 := DistributeAll(cats, t.lc);
      DistributeOrdered(c1, t.rc);
      var c2 := DistributeAll(c1, t.rc);
      InsertOrdered(c2[t.val.category], t.key, Unrated(t.val.year));
    }
  }

  /** Publishing adds to each category exactly its staged movies, unrated, and
      changes no record already there. */
  lemma {:induction false} DistributeContents(cats: seq<Tree<Counters>>, t: Tree<Staged>, c: int)
    requires |cats| == CategoryCount && Categorised(t) && 0 <= c < CategoryCount
    ensures multiset(InOrder(DistributeAll(cats, t)[c])) == multiset(InOrder(cats[c])) + Published(t, c)
    decreases t
  {
    if t.Node? {
      DistributeContents(cats, t.lc, c);
      var c1 := DistributeAll(cats, t.lc);
      DistributeContents(c1, t.rc, c);
      var c2 := DistributeAll(c1, t.rc);
      if t.val.category == c {
        InsertContents(c2[c], t.key, Unrated(t.val.year));
      }
    }
  }

  /** Publishing `t` adds exactly Size(t) records to the catalogue. */
  lemma {:induction false} DistributeSize(cats: seq<Tree<Counters>>, t: Tree<Staged>)
    requires |cats| == CategoryCount && Categorised(t)
    ensures TotalSize(DistributeAll(cats, t)) == TotalSize(cats) + Size(t)
    decreases t
  {
    if t.Node? {
      DistributeSize(cats, t.lc);
      var c1 := DistributeAll(cats, t.lc);
      DistributeSize(c1, t.rc);
      var c2 := DistributeAll(c1, t.rc);
      var cat := t.val.category;
      InsertContents(c2[cat], t.key, Unrated(t.val.year));
      TotalSizeUpdate(c2, cat, Insert(c2[cat], t.key, Unrated(t.val.year)));
    }
  }
}
