/** The store of Movie.c: the user hash table, the six category trees and
    the staging tree of new releases, with the operations of the program on
    them. */
module Store {
  import opened Trees
  import opened Bst
  import opened Catalogue
  import opened History
  import opened Users
  import opened Ranking

  /** A user as the index keeps it: an identifier in range that hashes to
      its bucket, and a well-formed history. */
  ghost predicate UserOk(u: User, bucket: int, maxId: int, a: int, b: int, m: int, p: int)
    requires m != 0 && p != 0
  {
    0 <= u.userID <= maxId && Hash(a, b, u.userID, m, p) == bucket &&
    Full(u.history) && Routed(u.history)
  }

  ghost predicate ChainOk(chain: seq<User>, bucket: int, maxId: int, a: int, b: int, m: int, p: int)
    requires m != 0 && p != 0
  {
    Distinct(chain) && forall u :: u in chain ==> UserOk(u, bucket, maxId, a, b, m, p)
  }

  class MovieStore {
    /** max_id: the largest user identifier accepted. */
    const maxId: int
    /** The parameters of the universal hash function. */
    const a: int
    const b: int
    const m: int
    const p: int
    /** user_hashtable_p: hashtable_size chains; users hash into the first m. */
    const table: array<seq<User>>
    /** categoryArray: the six category trees. */
    const cats: array<Tree<Counters>>
    /** newMoviesTree.root. */
    var staging: Tree<Staged>

    ghost predicate Params()
    {
      0 <= a && 0 <= b && 0 < p && 0 < m <= table.Length && cats.Length == CategoryCount
    }

    ghost predicate Valid()
      reads this, table, cats
    {
      Params() &&
      (forall i :: 0 <= i < table.Length ==> ChainOk(table[i], i, maxId, a, b, m, p)) &&
      (forall c :: 0 <= c < CategoryCount ==> Ordered(cats[c])) &&
      StrictlyOrdered(staging) && Categorised(staging)
    }

    /** The bucket of a non-negative identifier. */
    function Bucket(userID: int): (k: int)
      requires Params() && userID >= 0
      ensures 0 <= k < m
    {
      HashInRange(a, b, userID, m, p);
      Hash(a, b, userID, m, p)
    }

    /** existsUser's answer. */
    ghost predicate Registered(userID: int)
      requires Params() && userID >= 0
      reads table
    {
      userID <= maxId && InChain(table[Bucket(userID)], userID)
    }

    /** makeHashTable, initHashTable, initMovieCategoryArray and
        initNewMoviesTree: every chain empty, every category tree holding
        only the sentinel, no staged movie. */
    constructor (maxId: int, a: int, b: int, m: int, p: int, hashtableSize: int)
      requires 0 <= a && 0 <= b && 0 < p && 0 < m <= hashtableSize
      ensures Valid()
      ensures this.maxId == maxId && this.a == a && this.b == b && this.m == m && this.p == p
      ensures table.Length == hashtableSize && forall i :: 0 <= i < hashtableSize ==> table[i] == []
      ensures forall c :: 0 <= c < CategoryCount ==> cats[c] == Nil
      ensures staging == Nil
      ensures fresh(table) && fresh(cats)
    {
      var t := new seq<User>[hashtableSize];
      var i := 0;
      while i < hashtableSize
        invariant 0 <= i <= hashtableSize
        invariant forall k :: 0 <= k < i ==> t[k] == []
      {
        t[i] := [];
        i := i + 1;
      }
      var cs := new Tree<Counters>[CategoryCount];
      var c := 0;
      while c < CategoryCount
        invariant 0 <= c <= CategoryCount
        invariant forall k :: 0 <= k < c ==> cs[k] == Nil
        invariant forall k :: 0 <= k < hashtableSize ==> t[k] == []
      {
        cs[c] := Nil;
        c := c + 1;
      }
      this.maxId, this.a, this.b, this.m, this.p := maxId, a, b, m, p;
      table, cats, staging := t, cs, Nil;
    }

    /** existsUser: scans the user's chain. */
    method ExistsUser(userID: int) returns (r: int)
      requires Valid() && userID >= 0
      ensures r == 0 || r == 1
      ensures r == 1 <==> Registered(userID)
    {
      if userID > maxId {
        return 0;
      }
      var key := Bucket(userID);
      var chain := table[key];
      if chain == [] {
        return 0;
      }
      var i := 0;
      while i < |chain| && chain[i].userID != userID
        invariant 0 <= i <= |chain|
        invariant forall k :: 0 <= k < i ==> chain[k].userID != userID
      {
        i := i + 1;
      }
      r := if i == |chain| then 0 else 1;
    }

    /** userFind: the position of the user in its chain. */
    method UserFind(userID: int) returns (r: int, j: int)
      requires Valid() && userID >= 0
      ensures r == 0 || r == 1
      ensures r == 1 <==> Registered(userID)
      ensures r == 1 ==> j == IndexOf(table[Bucket(userID)], userID) && j < |table[Bucket(userID)]|
    {
      if userID > maxId {
        return 0, 0;
      }
      var e := ExistsUser(userID);
      if e == 0 {
        return 0, 0;
      }
      var key := Bucket(userID);
      var chain := table[key];
      IndexOfFinds(chain, userID);
      j := 0;
      while chain[j].userID != userID
        invariant 0 <= j <= IndexOf(chain, userID) < |chain|
        decreases IndexOf(chain, userID) - j
      {
        j := j + 1;
      }
      r := 1;
    }

    /** register_user: a new user with an empty history goes at the tail of
        its chain. */
    method RegisterUser(userID: int) returns (r: int)
      requires Valid() && userID >= 0
      modifies table
      ensures Valid()
      ensures userID > maxId ==> r == 0 && table[..] == old(table[..])
      ensures old(Registered(userID)) ==> r == -1 && table[..] == old(table[..])
      ensures userID <= maxId && !old(Registered(userID)) ==>
                r == 1 &&
                table[..] == old(table[..])[Bucket(userID) := old(table[Bucket(userID)]) + [NewUser(userID)]]
      ensures r == 1 ==> Registered(userID)
    {
      if userID > maxId {
        return 0;
      }
      var e := ExistsUser(userID);
      if e == 1 {
        return -1;
      }
      var key := Bucket(userID);
      AppendDistinct(table[key], NewUser(userID));
      table[key] := table[key] + [NewUser(userID)];
      r := 1;
    }

    /** unregister_user: the user's history is emptied, and the user is
        unlinked when it is the head or the tail of its chain. */
    method UnregisterUser(userID: int) returns (r: int)
      requires Valid() && userID >= 0
      modifies table
      ensures Valid()
      ensures userID > maxId ==> r == 0 && table[..] == old(table[..])
      ensures userID <= maxId && !old(Registered(userID)) ==> r == -1 && table[..] == old(table[..])
      ensures old(Registered(userID)) ==>
                var chain := old(table[Bucket(userID)]);
                r == 1 &&
                table[..] == old(table[..])[Bucket(userID) := Unregistered(chain, IndexOf(chain, userID))]
    {
      if userID > maxId {
        return 0;
      }
      var e := ExistsUser(userID);
      if e == 0 {
        return -1;
      }
      var key := Bucket(userID);
      var chain := table[key];
      IndexOfFinds(chain, userID);
      var j := 0;
      while chain[j].userID != userID
        invariant 0 <= j <= IndexOf(chain, userID) < |chain|
        decreases IndexOf(chain, userID) - j
      {
        j := j + 1;
      }
      UnregisterDistinct(chain, j);
      table[key] := Unregistered(chain, j);
      r := 1;
    }

    /** existsNewMovie: a full traversal of the staging tree. */
    function ExistsNewMovie(movieID: int): (r: int)
      reads this
      ensures r == 0 || r == 1
      ensures r == 1 <==> movieID in Keys(staging)
    {
      if staging.Nil? then 0
      else if Found(staging, movieID) then 1
      else 0
    }

    /** Whether newMovieExistsInCategoryArray reports a clash: the category
        tree is not empty, and either the identifier is not the sentinel's
        (the descent then always runs off the sentinel to NULL) or a real
        node carries the sentinel's identifier. */
    ghost predicate Clashes(category: int, movieID: int)
      requires Params() && 0 <= category < CategoryCount
      reads cats
    {
      cats[category].Node? && (movieID != Sentinel || Sentinel in Keys(cats[category]))
    }

    /** add_new_movie. */
    method AddNewMovie(movieID: int, category: int, year: int) returns (r: int)
      requires Valid() && 0 <= category < CategoryCount
      modifies this
      ensures Valid()
      ensures old(staging).Nil? ==> r == 1 && staging == Leaf(movieID, Staged(category, year))
      ensures old(staging).Node? && (movieID in Keys(old(staging)) || Clashes(category, movieID)) ==>
                r == -1 && staging == old(staging)
      ensures old(staging).Node? && !(movieID in Keys(old(staging)) || Clashes(category, movieID)) ==>
                r == 1 && staging == Insert(old(staging), movieID, Staged(category, year))
    {
      var s := Staged(category, year);
      if staging.Nil? {
        staging := Leaf(movieID, s);
        return 1;
      }
      if ExistsNewMovie(movieID) == 1 {
        return -1;
      }
      var ex := ExistsInCategory(cats[category], movieID);
      if ex == 1 {
        return -1;
      }
      var path := Descend(staging, movieID, false);
      var prev := At(staging, path);
      InsertIsGraft(staging, movieID, s);
      InsertStrictlyOrdered(staging, movieID, s);
      InsertCategorised(staging, movieID, s);
      staging := Graft(staging, path, WithChild(prev, Step(prev.key, movieID, false), Leaf(movieID, s)));
      r := 1;
    }

    /** DistributeMovie: the staged movie becomes an unrated record at the
        end of the descent in its category tree. */
    method DistributeMovie(movieID: int, s: Staged)
      requires Params() && 0 <= s.category < CategoryCount
      modifies cats
      ensures cats[..] == Publish(old(cats[..]), movieID, s)
    {
      var root := cats[s.category];
      var movie := Leaf(movieID, Unrated(s.year));
      if root.Nil? {
        cats[s.category] := movie;
        return;
      }
      var path := Descend(root, movieID, false);
      var prev := At(root, path);
      InsertIsGraft(root, movieID, Unrated(s.year));
      cats[s.category] := Graft(root, path, WithChild(prev, Step(prev.key, movieID, false), movie));
    }

    /** postOrderDistribute: left subtree, right subtree, then the node. */
    method PostOrderDistribute(t: Tree<Staged>)
      requires Params() && Categorised(t)
      modifies cats
      ensures cats[..] == DistributeAll(old(cats[..]), t)
      decreases t
    {
      if t.Nil? {
        return;
      }
      PostOrderDistribute(t.lc);
      PostOrderDistribute(t.rc);
      DistributeMovie(t.key, t.val);
    }

    /** distribute_movies. */
    method DistributeMovies() returns (r: int)
      requires Valid()
      modifies this, cats
      ensures Valid()
      ensures r == 1 && staging == Nil
      ensures cats[..] == DistributeAll(old(cats[..]), old(staging))
      ensures TotalSize(cats[..]) == old(TotalSize(cats[..])) + old(Size(staging))
      ensures forall c :: 0 <= c < CategoryCount ==>
                multiset(InOrder(cats[c])) == old(multiset(InOrder(cats[c]))) + Published(old(staging), c)
    {
      if staging.Nil? {
        return 1;
      }
      ghost var before := cats[..];
      DistributeOrdered(before, staging);
      DistributeSize(before, staging);
      forall c | 0 <= c < CategoryCount {
        DistributeContents(before, staging, c);
      }
      PostOrderDistribute(staging);
      staging := Nil;
      r := 1;
    }

    /** search_movie. */
    method SearchMovie(movieID: int, category: int) returns (r: int, year: int)
      requires Valid()
      ensures !(0 <= category < CategoryCount) ==> r == -1
      ensures 0 <= category < CategoryCount ==>
                var hit := ProbeHit(cats[category], movieID);
                (r == 1 <==> hit.Node? && hit.key != Sentinel) &&
                (r == 1 ==> hit.key == movieID && year == hit.val.year) &&
                (r != 1 ==> r == 0)
      ensures 0 <= category < CategoryCount && Sentinel !in Keys(cats[category]) && movieID != Sentinel ==>
                (r == 1 <==> movieID in Keys(cats[category]))
    {
      if category >= CategoryCount || category < 0 {
        return -1, 0;
      }
      var root := cats[category];
      if root.Nil? {
        return 0, 0;
      }
      if root.key == Sentinel {
        return 0, 0;
      }
      var path := Probe(root, movieID);
      var curr := At(root, path);
      if Sentinel !in Keys(root) && movieID != Sentinel {
        ProbeFinds(root, movieID);
      }
      if curr.Node? && curr.key != Sentinel {
        r, year := 1, curr.val.year;
      } else {
        r, year := 0, 0;
      }
    }

    /** editeMovie: one more view and `score` more points for the node the
        descent stops at. */
    method EditeMovie(movieID: int, score: int, category: int) returns (r: int)
      requires Valid() && 0 <= category < CategoryCount
      modifies cats
      ensures Valid()
      ensures r == 0 || r == 1
      ensures r == 1 <==> old(ProbeHit(cats[category], movieID)).Node?
      ensures r == 0 ==> cats[..] == old(cats[..])
      ensures r == 1 ==> cats[..] == old(cats[..])[category := Edited(old(cats[category]), movieID, score)]
    {
      var root := cats[category];
      if root.Nil? {
        return 0;
      }
      var path := Probe(root, movieID);
      var curr := At(root, path);
      if curr.Nil? {
        return 0;
      }
      RetagKeys(root, path, Bump(curr.val, score));
      cats[category] := Graft(root, path, curr.(val := Bump(curr.val, score)));
      r := 1;
    }

    /** watch_movie. */
    method WatchMovie(userID: int, category: int, movieID: int, score: int) returns (r: int)
      requires Valid() && userID >= 0 && 0 <= category < CategoryCount
      modifies table, cats
      ensures Valid()
      ensures r != 1 ==> table[..] == old(table[..]) && cats[..] == old(cats[..])
      ensures !(1 <= score <= 10) ==> r == -3
      ensures 1 <= score <= 10 && !old(Registered(userID)) ==> r == 0
      ensures 1 <= score <= 10 && old(Registered(userID)) && old(ProbeHit(cats[category], movieID)).Nil? ==> r == -1
      ensures 1 <= score <= 10 && old(Registered(userID)) && old(ProbeHit(cats[category], movieID)).Node? ==>
                var chain := old(table[Bucket(userID)]);
                var j := IndexOf(chain, userID);
                r == 1 &&
                cats[..] == old(cats[..])[category := Edited(old(cats[category]), movieID, score)] &&
                table[..] == old(table[..])[Bucket(userID) :=
                  chain[j := User(userID, Rate(chain[j].history, movieID, Rating(category, score)))]]
    {
      if score < 1 || score > 10 {
        return -3;
      }
      var found, j := UserFind(userID);
      if found == 0 {
        return 0;
      }
      var edited := EditeMovie(movieID, score, category);
      if edited == 0 {
        return -1;
      }
      var key := Bucket(userID);
      var chain := table[key];
      assert chain[j] in chain;
      var h := AddMovieToUser(chain[j].history, category, movieID, score);
      RateFull(chain[j].history, movieID, Rating(category, score));
      RateRouted(chain[j].history, movieID, Rating(category, score));
      table[key] := chain[j := User(userID, h)];
      r := 1;
    }

    /** user_stats: the sum of the scores and the number of nodes of the
        user's history tree, internal copies included. */
    method UserStats(userID: int) returns (r: int, scoreSum: int, counter: int)
      requires Valid() && userID >= 0
      ensures userID > maxId ==> r == 0
      ensures userID <= maxId && !Registered(userID) ==> r == -1
      ensures Registered(userID) ==>
                var chain := table[Bucket(userID)];
                var h := chain[IndexOf(chain, userID)].history;
                scoreSum == ScoreSum(h) && counter == Size(h) &&
                (r == -2 <==> h.Nil?) && (r != -2 ==> r == 1 && counter == 2 * |Leaves(h)| - 1)
    {
      if userID > maxId {
        return 0, 0, 0;
      }
      var e := ExistsUser(userID);
      if e == 0 {
        return -1, 0, 0;
      }
      var found, j := UserFind(userID);
      var chain := table[Bucket(userID)];
      var h := chain[j].history;
      scoreSum, counter := FindStats(h, 0, 0);
      assert chain[j] in chain;
      FullSize(h);
      if counter == 0 {
        return -2, scoreSum, counter;
      }
      r := 1;
    }

    /** getNumberOfMovies. */
    method GetNumberOfMovies() returns (n: int)
      requires Valid()
      ensures n == |ListedAll(cats[..])|
      ensures (forall c :: 0 <= c < CategoryCount ==> Sentinel !in Keys(cats[c])) ==> n == TotalSize(cats[..])
    {
      n := 0;
      var c := 0;
      while c < CategoryCount
        invariant 0 <= c <= CategoryCount
        invariant n == |ListedAll(cats[..c])|
      {
        assert cats[..c + 1][..c] == cats[..c];
        n := CountMovies(cats[c], n);
        c := c + 1;
      }
      assert cats[..c] == cats[..];
      if forall c :: 0 <= c < CategoryCount ==> Sentinel !in Keys(cats[c]) {
        ListedAllCount(cats[..]);
      }
    }

    /** filter_movies with threshold tn/td: the movies whose mean score
        reaches the threshold, in ascending order of truncated mean. */
    method FilterMovies(tn: int, td: int) returns (r: int, ranking: seq<Entry>)
      requires Valid() && td > 0
      ensures r == 0 || r == 1
      ensures r == 0 <==> |ListedAll(cats[..])| == 0
      ensures r == 0 ==> ranking == []
      ensures r == 1 ==> multiset(ranking) == multiset(SelectedAll(cats[..], tn, td))
      ensures forall i, j :: 0 <= i < j < |ranking| ==> AvgKey(ranking[i]) <= AvgKey(ranking[j])
      ensures forall e :: e in ranking ==> Qualifies(e.1, tn, td)
      ensures forall e :: e in ListedAll(cats[..]) && Qualifies(e.1, tn, td) ==> e in ranking
    {
      var n := GetNumberOfMovies();
      if n == 0 {
        return 0, [];
      }
      var arr := new Entry[n];
      var index := 0;
      var c := 0;
      while c < CategoryCount
        invariant 0 <= c <= CategoryCount
        invariant 0 <= index <= n
        invariant arr[..index] == SelectedAll(cats[..c], tn, td)
      {
        assert cats[..c + 1][..c] == cats[..c];
        SelectedAllFits(cats[..c + 1], tn, td);
        ListedAllPrefix(cats[..], c + 1);
        index := AddBasedOnScore(cats[c], tn, td, arr, index);
        c := c + 1;
      }
      assert cats[..c] == cats[..];
      SortByAverage(arr, index);
      ranking := arr[..index];
      RankingMembers(ranking, cats[..], tn, td);
      r := 1;
    }
  }
}
