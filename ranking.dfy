/** The ranking behind filter_movies: the catalogue is counted to size a
    helper array, the movies whose mean score reaches the threshold are
    gathered into it in post-order, and the gathered prefix is heap-sorted on
    the truncated mean. */
module Ranking {
  import opened Trees
  import opened Catalogue
  import HeapSort

  /** A helper-array slot: the movie's identifier and its counters. */
  type Entry = (int, Counters)

  /** Whether a movie passes the threshold tn/td: its mean score
      sumScore/watchedCounter is at least tn/td. A movie nobody has rated
      (0/0, not a number in floating point) never passes. */
  predicate Qualifies(c: Counters, tn: int, td: int)
  {
    c.watchedCounter > 0 && c.sumScore * td >= tn * c.watchedCounter
  }

  /** The integer test is the comparison of the two quotients. */
  lemma QualifiesMeans(c: Counters, tn: int, td: int)
    requires td > 0 && c.watchedCounter > 0
    ensures Qualifies(c, tn, td) <==>
            (c.sumScore as real) / (c.watchedCounter as real) >= (tn as real) / (td as real)
  {
    var s, w, n, d := c.sumScore as real, c.watchedCounter as real, tn as real, td as real;
    assert s / w - n / d == (s * d - n * w) / (w * d);
    assert (c.sumScore * td - tn * c.watchedCounter) as real == s * d - n * w;
  }

  /** The nodes the recursive walks of inOrderCountMovies and
      inOrderAddBasedOnScore visit, in the order they handle them: left
      subtree, right subtree, node. A walk stops at the sentinel and at any
      node whose identifier equals the sentinel's. */
  function Listed(t: Tree<Counters>): seq<Entry>
  {
    if t.Nil? || t.key == Sentinel then []
    else Listed(t.lc) + Listed(t.rc) + [(t.key, t.val)]
  }

  /** The same walk keeping only the movies that pass the threshold. */
  function Selected(t: Tree<Counters>, tn: int, td: int): seq<Entry>
  {
    if t.Nil? || t.key == Sentinel then []
    else Selected(t.lc, tn, td) + Selected(t.rc, tn, td) +
         (if Qualifies(t.val, tn, td) then [(t.key, t.val)] else [])
  }

  /** The walks over the six categories in index order. */
  function ListedAll(cats: seq<Tree<Counters>>): seq<Entry>
  {
    if cats == [] then [] else ListedAll(cats[..|cats| - 1]) + Listed(cats[|cats| - 1])
  }

  function SelectedAll(cats: seq<Tree<Counters>>, tn: int, td: int): seq<Entry>
  {
    if cats == [] then []
    else SelectedAll(cats[..|cats| - 1], tn, td) + Selected(cats[|cats| - 1], tn, td)
  }

  /** Without a real node carrying the sentinel's identifier the walk visits
      every record of the tree. */
  lemma {:induction false} ListedContents(t: Tree<Counters>)
    requires Sentinel !in Keys(t)
    ensures multiset(Listed(t)) == multiset(InOrder(t))
  {
    if t.Node? {
      ListedContents(t.lc);
      ListedContents(t.rc);
      var l, r, mid := InOrder(t.lc), InOrder(t.rc), [(t.key, t.val)];
      assert multiset(InOrder(t)) == multiset(l) + multiset(mid) + multiset(r);
      assert multiset(Listed(t)) == multiset(Listed(t.lc)) + multiset(Listed(t.rc)) + multiset(mid);
    }
  }

  /** The gathered movies are exactly the visited ones that pass the
      threshold. */
  lemma {:induction false} SelectedIsFilter(t: Tree<Counters>, tn: int, td: int)
    ensures forall e :: e in Selected(t, tn, td) <==> e in Listed(t) && Qualifies(e.1, tn, td)
  {
    if t.Node? && t.key != Sentinel {
      SelectedIsFilter(t.lc, tn, td);
      SelectedIsFilter(t.rc, tn, td);
    }
  }

  /** Each is gathered as often as it is visited, at most. */
  lemma {:induction false} SelectedSubMultiset(t: Tree<Counters>, tn: int, td: int)
    ensures multiset(Selected(t, tn, td)) <= multiset(Listed(t))
  {
    if t.Node? && t.key != Sentinel {
      SelectedSubMultiset(t.lc, tn, td);
      SelectedSubMultiset(t.rc, tn, td);
      var mid := [(t.key, t.val)];
      var q := if Qualifies(t.val, tn, td) then mid else [];
      assert multiset(Selected(t, tn, td)) ==
             multiset(Selected(t.lc, tn, td)) + multiset(Selected(t.rc, tn, td)) + multiset(q);
      assert multiset(Listed(t)) == multiset(Listed(t.lc)) + multiset(Listed(t.rc)) + multiset(mid);
    }
  }

  lemma {:induction false} SelectedFits(t: Tree<Counters>, tn: int, td: int)
    ensures |Selected(t, tn, td)| <= |Listed(t)|
  {
    if t.Node? && t.key != Sentinel {
      SelectedFits(t.lc, tn, td);
      SelectedFits(t.rc, tn, td);
    }
  }

  /** The count of getNumberOfMovies bounds the number of gathered movies,
      so the helper array is large enough. */
  lemma {:induction false} SelectedAllFits(cats: seq<Tree<Counters>>, tn: int, td: int)
    ensures |SelectedAll(cats, tn, td)| <= |ListedAll(cats)|
    decreases |cats|
  {
    if cats != [] {
      SelectedAllFits(cats[..|cats| - 1], tn, td);
      SelectedFits(cats[|cats| - 1], tn, td);
    }
  }

  /** Over the six categories, the gathered movies are exactly the visited
      ones that pass the threshold. */
  lemma {:induction false} SelectedAllIsFilter(cats: seq<Tree<Counters>>, tn: int, td: int)
    ensures forall e :: e in SelectedAll(cats, tn, td) <==> e in ListedAll(cats) && Qualifies(e.1, tn, td)
    decreases |cats|
  {
    if cats != [] {
      SelectedAllIsFilter(cats[..|cats| - 1], tn, td);
      SelectedIsFilter(cats[|cats| - 1], tn, td);
    }
  }

  /** Any arrangement of the gathered movies holds exactly the visited movies
      that pass the threshold. */
  lemma RankingMembers(ranking: seq<Entry>, cats: seq<Tree<Counters>>, tn: int, td: int)
    requires multiset(ranking) == multiset(SelectedAll(cats, tn, td))
    ensures forall e :: e in ranking <==> e in ListedAll(cats) && Qualifies(e.1, tn, td)
  {
    SelectedAllIsFilter(cats, tn, td);
    forall e ensures e in ranking <==> e in SelectedAll(cats, tn, td) {
      assert e in ranking <==> e in multiset(ranking);
    }
  }

  lemma {:induction false} TotalSizeSnoc(cats: seq<Tree<Counters>>)
    requires cats != []
    ensures TotalSize(cats) == TotalSize(cats[..|cats| - 1]) + Size(cats[|cats| - 1])
    decreases |cats|
  {
    if |cats| > 1 {
      TotalSizeSnoc(cats[1..]);
      assert cats[1..][..|cats| - 2] == cats[..|cats| - 1][1..];
    }
  }

  /** When no real node carries the sentinel's identifier, getNumberOfMovies
      counts every record of the catalogue. */
  lemma {:induction false} ListedAllCount(cats: seq<Tree<Counters>>)
    requires forall c :: 0 <= c < |cats| ==> Sentinel !in Keys(cats[c])
    ensures |ListedAll(cats)| == TotalSize(cats)
    decreases |cats|
  {
    if cats != [] {
      var init := cats[..|cats| - 1];
      assert forall c :: 0 <= c < |init| ==> init[c] == cats[c];
      ListedAllCount(init);
      ListedContents(cats[|cats| - 1]);
      assert |Listed(cats[|cats| - 1])| == |multiset(Listed(cats[|cats| - 1]))|;
      TotalSizeSnoc(cats);
    }
  }

  /** Walking fewer categories visits no more movies. */
  lemma {:induction false} ListedAllPrefix(cats: seq<Tree<Counters>>, k: int)
    requires 0 <= k <= |cats|
    ensures |ListedAll(cats[..k])| <= |ListedAll(cats)|
    decreases |cats|
  {
    if k < |cats| {
      ListedAllPrefix(cats[..|cats| - 1], k);
      assert cats[..|cats| - 1][..k] == cats[..k];
    } else {
      assert cats[..k] == cats;
    }
  }

  /** inOrderCountMovies: adds the number of visited movies to the counter. */
  method CountMovies(t: Tree<Counters>, n: int) returns (n': int)
    ensures n' == n + |Listed(t)|
    decreases t
  {
    if t.Nil? || t.key == Sentinel {
      return n;
    }
    n' := CountMovies(t.lc, n);
    n' := CountMovies(t.rc, n');
    n' := n' + 1;
  }

  /** inOrderAddBasedOnScore: writes the passing movies into the helper array
      from `index` on and returns the next free index. */
  method AddBasedOnScore(t: Tree<Counters>, tn: int, td: int, arr: array<Entry>, index: int)
    returns (index': int)
    requires 0 <= index && index + |Selected(t, tn, td)| <= arr.Length
    modifies arr
    ensures index' == index + |Selected(t, tn, td)|
    ensures arr[..index] == old(arr[..index])
    ensures arr[index..index'] == Selected(t, tn, td)
    ensures arr[index'..] == old(arr[index'..])
    decreases t
  {
    if t.Nil? || t.key == Sentinel {
      return index;
    }
    var i1 := AddBasedOnScore(t.lc, tn, td, arr, index);
    var i2 := AddBasedOnScore(t.rc, tn, td, arr, i1);
    assert arr[index..i1] == Selected(t.lc, tn, td);
    index' := i2;
    if Qualifies(t.val, tn, td) {
      arr[i2] := (t.key, t.val);
      index' := i2 + 1;
      assert arr[index..index'] == arr[index..i1] + arr[i1..i2] + [arr[i2]];
    } else {
      assert arr[index..index'] == arr[index..i1] + arr[i1..i2];
    }
  }

  /** The sort key of Movie.c's heapify: the mean score converted to int,
      which truncates toward zero. Gathered movies always have a positive
      count; the zero-count case never reaches the sort. */
  function AvgKey(e: Entry): (k: int)
    ensures e.1.watchedCounter > 0 && e.1.sumScore >= 0 ==>
              0 <= k * e.1.watchedCounter <= e.1.sumScore < (k + 1) * e.1.watchedCounter
  {
    var s, w := e.1.sumScore, e.1.watchedCounter;
    if w <= 0 then 0
    else if s >= 0 then s / w
    else -((-s) / w)
  }

  /** heapSort on the helper array: the first `d` slots end up in ascending
      order of the truncated mean and are a permutation of what they held. */
  method SortByAverage(arr: array<Entry>, d: int)
    requires 0 <= d <= arr.Length
    modifies arr
    ensures forall i, j :: 0 <= i < j < d ==> AvgKey(arr[i]) <= AvgKey(arr[j])
    ensures multiset(arr[..d]) == old(multiset(arr[..d]))
    ensures arr[d..] == old(arr[d..])
  {
    HeapSort.Sort(arr, d, AvgKey);
    assert forall i, j :: 0 <= i < j < d ==> AvgKey(arr[..d][i]) <= AvgKey(arr[..d][j]);
  }
}
