# Movie store and heap sort, modelled in Dafny

This project models the core of a small in-memory movie catalogue and rating
store (`Movie.c`) and a stand-alone integer heap sort (`heapSort.c`).

- **User index.** The store keeps its users in a hash table of singly linked
  chains. A user goes into bucket `((a*id + b) % p) % m`, with C remainders.
  Each user owns a history tree of the ratings it gave.
- **Staging tree.** New releases are first collected in a staging tree. This is
  an unbalanced binary search tree keyed by movie identifier.
- **Publication.** A post-order walk publishes the staging tree into six
  category trees. All six end in one shared sentinel with identifier -1.
- **Rating.** Rating a movie bumps the movie's counters in its category tree
  and records the rating in the user's history tree. The history tree grows
  by leaf splitting: the leaf reached keeps its record, becomes internal, and
  gets the new rating and a copy of itself as children.
- **Ranking.** Ranking gathers the movies whose mean score reaches a threshold
  into an array, then heap-sorts them on the truncated mean.

Layout:

- **`trees.dfy`**
  - Linked nodes become an immutable `Tree` value. `Nil` stands both for NULL
    and for the shared sentinel.
  - The source's `while (curr != NULL)` descents are a method (`Descend`) that
    walks a path.
  - Re-pointing `prev->lc` or `prev->rc` is a `Graft` at that path.
- **`bst.dfy`**
  - Plain insertion (left iff the node's identifier is greater).
  - The two ordering disciplines:
    - catalogue trees: left < node <= right;
    - staging tree: strictly increasing.
- **`catalogue.dfy`**
  - The category trees and their descents: `search_movie`, `editeMovie` and
    `newMovieExistsInCategoryArray`.
  - Publication of the staging tree.
- **`history.dfy`**
  - The history tree, `addMovieToUser` and `inOrderFindStats`.
- **`users.dfy`**
  - The hash function with C's `%`, the chains, and the chain results of
    `unregister_user`.
- **`heapsort.dfy`**
  - `heapify` and `heapSort` on an array. Elements are compared through a key
    function.
  - `heapSort.c` is the instance where integers are their own keys.
- **`ranking.dfy`**
  - Counting the catalogue and gathering the movies that pass the threshold.
  - The sort on the truncated mean.
- **`store.dfy`**
  - The class `MovieStore`. Its fields are the source's globals:
    - `user_hashtable_p` is an array of chains;
    - `categoryArray` is an array of six trees;
    - `newMoviesTree.root` is a tree.
  - Its methods are the operations of the program.
  - `Valid()` is the invariant they keep:
    - every user's identifier is in range, hashes to its bucket, and is
      unique in its chain;
    - every history tree is full and routed;
    - every category tree is ordered;
    - the staging tree is strictly ordered and carries valid category tags.

Behaviour of `Movie.c` that the model reproduces as written:

- **Mean score of a user.** `inOrderFindStats` (Movie.c:1365-1373) adds up
  every node of the history tree, internal copies included, not only the
  leaves. For ratings (1, 4) then (2, 10) it works with a sum of 18 over 3
  nodes, not 14 over 2 (`History.StatsCountInternalCopies`).
- **Sort order of the ranking.** `heapSort` (Movie.c:1282-1301) builds a
  max-heap and swaps the root to the end of the shrinking heap, so the
  ranking comes out in ascending order of mean score.
- **Unregistering a user.** `unregister_user` (Movie.c:118-137) unlinks the
  user only when it is the head or the tail of its chain. A user strictly
  inside the chain has its history released and stays linked
  (`Users.UnregisterMiddle`).
- **Duplicate check against the catalogue.** The comment at Movie.c:935 says
  the descent of `newMovieExistsInCategoryArray` stops at the sentinel. The
  loop at Movie.c:937-947 tests for NULL instead: it steps through the
  sentinel, whose links are NULL, so the test at Movie.c:950 reports "exists"
  for any identifier other than -1 whenever the category tree is not empty
  (`Catalogue.ExistsInCategory`).
- **Duplicate identifiers in a category tree.** `add_new_movie` takes the
  movie as the root of an empty staging tree without any check
  (Movie.c:165-173), so an identifier already published can be published
  again. `DistributeMovie` sends equal identifiers right (Movie.c:886-919).

## Model

| member | source | states |
|---|---|---|
| Trees.Descend | Movie.c:189-203 | the descent loop of add_new_movie (also DistributeMovie and addMovieToUser) returns the path to the last real node `prev`, whose link in the direction of the identifier is NULL |
| Trees.PrevPathEnds | Movie.c:191-205 | the node where the descent stops is real and its link on the identifier's side is NULL, so re-pointing that link attaches the new node |
| Trees.InOrderKeysOfInOrder | Movie.c:716-723 | the in-order identifier list is the identifiers of the in-order records, position by position |
| Trees.InOrderKeysAreKeys | Movie.c:716-723 | the in-order identifier list and the identifier set of a tree hold the same identifiers |
| Bst.InsertIsGraft | Movie.c:189-205 | the loop-and-relink insertion of add_new_movie equals the recursive insertion (left iff the node's identifier is greater) |
| Bst.InsertKeys | Movie.c:189-205 | insertion adds exactly the new identifier to the tree's identifier set |
| Bst.InsertContents | Movie.c:189-205 | insertion adds exactly one record, the new one, to the tree's contents, and the size grows by one |
| Bst.InsertOrdered | Movie.c:886-919 | insertion keeps "left < node <= right", equal identifiers going right, whatever the identifier |
| Bst.InsertStrictlyOrdered | Movie.c:175-205 | inserting an identifier that is not yet present keeps the staging tree strictly ordered |
| Bst.StrictlyOrderedIncreasing | Movie.c:154-213 | a strictly ordered tree lists its identifiers in strictly increasing in-order |
| Bst.StrictlyOrderedIsOrdered | Movie.c:154-213 | a strictly ordered tree is also ordered in the catalogue's sense |
| Catalogue.Found | Movie.c:716-723 | InOrderFoundNewMovieTree answers true exactly when the identifier is in the tree, without relying on any ordering |
| Catalogue.InsertCategorised | Movie.c:154-213 | inserting a movie with a valid category tag keeps every staged tag valid |
| Catalogue.Probe | Movie.c:444-448 | the descent of search_movie and editeMovie stops at the sentinel, at a node with identifier -1 or at a match, and returns that path |
| Catalogue.ProbeFinds | Movie.c:433-478 | on an ordered tree without a real node -1, the descent for an identifier other than -1 reaches a real node exactly when the identifier is in the tree, and that node carries it |
| Catalogue.RetagKeys | Movie.c:1063-1093 | updating the counters of one node keeps every identifier and keeps the tree ordered |
| Catalogue.RetagContents | Movie.c:1086-1091 | updating the counters of one node changes that record in place in the in-order list and no other record |
| Catalogue.ExistsInCategory | Movie.c:927-952 | reports 0 on an empty tree; on a non-empty tree reports 1 for every identifier other than -1; for -1 on an ordered tree reports 1 exactly when a real node carries -1 |
| Catalogue.Publish | Movie.c:869-920 | DistributeMovie inserts the staged movie, unrated, into its own category's tree and leaves the six-tree array at length six |
| Catalogue.DistributeAll | Movie.c:833-861 | the post-order publication of a staging tree whose tags are valid yields six category trees |
| Catalogue.DistributeOrdered | Movie.c:833-920 | publishing keeps every category tree ordered |
| Catalogue.DistributeContents | Movie.c:833-920 | publishing adds to each category exactly its staged movies as unrated records and changes no record already there |
| Catalogue.DistributeSize | Movie.c:833-920 | publishing adds exactly as many records to the catalogue as the staging tree holds |
| History.Target | Movie.c:1118-1133 | the descent of addMovieToUser always ends at a real node |
| History.RateIsGraft | Movie.c:1100-1161 | the loop-and-relink of addMovieToUser equals the recursive definition: descend (left when the node's identifier is >= the movie's) to `prev`, then overwrite the score or split `prev` |
| History.TargetIsLeaf | Movie.c:1118-1133 | in a history tree where every node has zero or two children, the descent ends at a leaf |
| History.RateFull | Movie.c:1134-1159 | recording a rating keeps every node with zero or two children |
| History.RateKeys | Movie.c:1134-1159 | recording a rating adds no identifier other than the rated movie's |
| History.RateRouted | Movie.c:1118-1159 | recording a rating keeps every node's identifier >= those on its left and <= those on its right |
| History.RateLeavesNew | Movie.c:1134-1155 | when the descent ends on a leaf with another identifier, the leaves gain exactly the new rating and lose none |
| History.RateLeavesRerate | Movie.c:1156-1159 | when the descent ends on a leaf with the same identifier, only that leaf's score is overwritten, in place, and its category is kept |
| History.TargetInLeaves | Movie.c:1118-1133 | the node the descent ends on is one of the visible ratings |
| History.RateLeafCount | Movie.c:1134-1159 | the number of leaves grows by exactly one, except on a re-rating, where it stays the same |
| History.LeafKeysOfLeaves | Movie.c:1223-1233 | the leaf identifier list is the identifiers of the visible ratings, position by position |
| History.LeafKeysInKeys | Movie.c:1223-1233 | every identifier among the leaves is an identifier of the tree |
| History.LeafKeysSorted | Movie.c:1223-1233 | in a routed history tree the leaves, read left to right, have non-decreasing identifiers |
| History.FullSize | Movie.c:1365-1373 | a non-empty history tree with zero or two children per node has 2·leaves − 1 nodes, and it has no nodes exactly when it is empty |
| History.FindStats | Movie.c:1365-1373 | inOrderFindStats adds the score of every node to the sum and the number of nodes to the counter |
| History.AddMovieToUser | Movie.c:1100-1161 | the loop of addMovieToUser computes the recursive rating insertion on the user's history |
| History.DuplicateLeaves | Movie.c:1118-1154 | rating x, then y < x, then x again leaves two leaves with identifier x, because the third descent ends at y's leaf |
| History.StatsCountInternalCopies | Movie.c:1365-1373 | after ratings (1, 4) and (2, 10) the history has score sum 18 over 3 nodes but only 2 leaves |
| Users.CRem | Movie.c:553-557 | C's remainder is non-negative and below the divisor for a non-negative dividend, and non-positive and above minus the divisor for a negative one |
| Users.HashInRange | Movie.c:553-557 | for non-negative operands the bucket is in [0, m) |
| Users.HashNegative | Movie.c:553-557 | a negative identifier can give a negative bucket: a = 1, b = 0, p = 7, m = 5 maps -1 to -1 |
| Users.IndexOf | Movie.c:646-653 | the chain scan stops at the first user with the identifier, or at the end when no user carries it |
| Users.IndexOfFinds | Movie.c:646-656 | the scan stops inside the chain exactly when some user carries the identifier |
| Users.UnregisterEnds | Movie.c:118-131 | unregistering the head or the tail removes that user, and only that user, from the chain |
| Users.UnregisterMiddle | Movie.c:115-138 | unregistering a user strictly inside the chain leaves it linked and findable, with an empty history, and changes no other user |
| Users.UnregisterDistinct | Movie.c:87-140 | unregistering keeps identifiers distinct within the chain and introduces no user other than the emptied one |
| Users.AppendDistinct | Movie.c:29-63 | appending a user whose identifier is new keeps identifiers distinct, and the new user is then found |
| HeapSort.Heapify | heapSort.c:6-35 | if the heap property holds from slot lo except at slot i, sifting i down restores it within [0, d), permutes [0, d) and leaves the slots from d on unchanged |
| HeapSort.SwapDown | heapSort.c:26-33 | swapping slot i with its larger child repairs slot i and moves the only possible violation down to that child |
| HeapSort.RootIsMax | heapSort.c:52-55 | in a heap, slot 0 holds a largest key |
| HeapSort.BuildHeap | heapSort.c:52-55 | the first loop makes [0, d) a max-heap, permuting it and leaving the slots from d on unchanged |
| HeapSort.ExtractStep | heapSort.c:58-66 | one step of the second loop turns a heap on [0, i] with a sorted, dominating suffix into a heap on [0, i) whose suffix from i is sorted and dominates it |
| HeapSort.ExtractMax | heapSort.c:60-62 | swapping the root with slot i puts a largest key of the heap at i |
| HeapSort.SiftKeepsSplit | heapSort.c:65 | re-sifting inside [0, i) permutes only that prefix, so the sorted suffix still dominates it |
| HeapSort.Sort | heapSort.c:49-67 | heapSort leaves [0, d) in non-decreasing key order, as a permutation of what it held, and leaves the slots from d on unchanged |
| HeapSort.SortInts | heapSort.c:49-67 | on integers: [0, d) ends sorted and permuted, the rest untouched, and an array with d <= 1 is not changed at all |
| HeapSort.SortPair | heapSort.c:73-78 | sorting {1, 2} yields {1, 2} |
| Ranking.QualifiesMeans | Movie.c:1316-1317 | the integer threshold test holds exactly when the mean score sumScore/watchedCounter is at least the threshold tn/td |
| Ranking.ListedContents | Movie.c:1349-1358 | when no real node carries -1, the counting walk visits every record of the tree exactly once |
| Ranking.SelectedIsFilter | Movie.c:1308-1323 | a movie is gathered exactly when the walk visits it and its mean score reaches the threshold |
| Ranking.SelectedSubMultiset | Movie.c:1308-1323 | no movie is gathered more often than the walk visits it |
| Ranking.SelectedFits | Movie.c:1308-1323 | a tree yields no more gathered movies than counted movies |
| Ranking.SelectedAllFits | Movie.c:329-350 | over the six categories, the gathered movies never outnumber getNumberOfMovies's count, so the helper array is large enough |
| Ranking.SelectedAllIsFilter | Movie.c:344-350 | over the six categories, a movie is gathered exactly when some walk visits it and its mean score reaches the threshold |
| Ranking.RankingMembers | Movie.c:344-354 | whatever order the sort leaves them in, the ranked movies are exactly the visited movies that pass the threshold |
| Ranking.ListedAllCount | Movie.c:1330-1343 | when no real node carries -1, getNumberOfMovies's count is the number of records in the catalogue |
| Ranking.ListedAllPrefix | Movie.c:1333-1339 | walking fewer categories never visits more movies |
| Ranking.CountMovies | Movie.c:1349-1358 | inOrderCountMovies adds the number of visited movies to the counter |
| Ranking.AddBasedOnScore | Movie.c:1308-1323 | inOrderAddBasedOnScore writes the passing movies, in post-order, into the slots from `index` on, returns the next free slot and changes no other slot |
| Ranking.AvgKey | Movie.c:1246-1250 | for a rated movie with a non-negative score sum, the key is the mean truncated toward zero |
| Ranking.SortByAverage | Movie.c:1241-1301 | Movie.c's heapSort leaves the first d slots in ascending order of truncated mean, permuted, and the rest untouched |
| Store.MovieStore.Bucket | Movie.c:44 | a non-negative identifier's bucket lies in [0, m) |
| Store.MovieStore.constructor | Movie.c:578-798 | makeHashTable, initHashTable, initNewMoviesTree and initMovieCategoryArray: every chain empty, six sentinel-only category trees, no staged movie |
| Store.MovieStore.ExistsUser | Movie.c:635-657 | existsUser answers 1 exactly when the identifier is at most max_id and some user of its bucket's chain carries it, and 0 otherwise |
| Store.MovieStore.UserFind | Movie.c:1033-1056 | userFind succeeds exactly when the user exists, and then yields its position in the chain |
| Store.MovieStore.RegisterUser | Movie.c:20-75 | 0 above max_id and -1 for an existing user, both with no change; otherwise a user with an empty history is appended at the tail of its bucket, no other chain changes, and the user then exists |
| Store.MovieStore.UnregisterUser | Movie.c:87-140 | 0 above max_id and -1 for an absent user, both with no change; otherwise only its bucket changes, as the head, tail or middle case prescribes |
| Store.MovieStore.ExistsNewMovie | Movie.c:700-708 | existsNewMovie answers 1 exactly when the identifier is in the staging tree |
| Store.MovieStore.AddNewMovie | Movie.c:154-213 | an empty staging tree takes the movie as its root without checks; otherwise -1 with no change when the identifier is staged or newMovieExistsInCategoryArray reports a clash, else the movie is inserted, and the staging tree stays strictly ordered |
| Store.MovieStore.DistributeMovie | Movie.c:869-920 | one staged movie becomes an unrated record at the end of the descent in its category tree |
| Store.MovieStore.PostOrderDistribute | Movie.c:833-861 | the post-order walk publishes the whole staging subtree |
| Store.MovieStore.DistributeMovies | Movie.c:223-255 | returns 1 and empties the staging tree; every staged movie is published unrated into its category, nothing else changes, every category tree stays ordered, and the catalogue grows by the staging tree's size |
| Store.MovieStore.SearchMovie | Movie.c:433-478 | -1 for a category outside 0..5; otherwise 1, with the year, exactly when the descent ends on a real node other than -1, which then carries the identifier, else 0; without real node -1 that is exactly "the identifier is in the category" |
| Store.MovieStore.EditeMovie | Movie.c:1063-1093 | 1 exactly when the descent ends on a real node, whose counters then gain one view and `score` points and nothing else changes; 0 with no change otherwise |
| Store.MovieStore.WatchMovie | Movie.c:269-316 | -3 for a score outside 1..10, 0 for an unknown user, -1 when the movie is not found, each with no change; otherwise the movie's counters accumulate and the user's history records the rating, and no other user changes |
| Store.MovieStore.UserStats | Movie.c:388-421 | 0 above max_id, -1 for an unknown user; otherwise the sum of scores and the number of nodes of the history, internal copies included; -2 exactly when the history is empty, and otherwise the count is 2·leaves − 1 |
| Store.MovieStore.GetNumberOfMovies | Movie.c:1330-1343 | the number of movies the six walks visit; when no real node carries -1, the number of records in the catalogue |
| Store.MovieStore.FilterMovies | Movie.c:329-375 | 0 exactly when the count is 0; otherwise the ranking holds exactly the movies that pass the threshold, as a permutation, in ascending order of truncated mean |

## Left out

- Printing. Every `printf`, the printing functions `print_movies`,
  `print_users`, `PrintUserMovies` and the `InOrderPrint*` family, and the
  report blocks inside the operations are formatting only. `printArray` in
  `heapSort.c` is formatting only as well.
- Allocation failures. `malloc` and `free` are not modelled, and neither are
  their failure paths:
  - the -2 return of `register_user`;
  - the -2 return of `watch_movie`;
  - `add_new_movie` returning 0;
  - the partial state left by a failed `DistributeMovie` during
    `postOrderDistribute`;
  - `filter_movies` returning 0 when its helper array cannot be allocated.

  Every allocation is taken to succeed.
- Teardown. `deleteHashTable`, `deleteUserChainIter`, `deleteNewMoviesTree*`,
  `deleteMovieCategoryArray`, `PostOrderMovieDelete` and
  `freeUserHistoryTree` only release memory. Releasing a history is modelled
  as setting it to empty.
- Store.MovieStore.WatchMovie: requires the category to lie in 0..5.
  `watch_movie` passes it unchecked to `editeMovie`, which indexes
  `categoryArray` with it (Movie.c:1065-1066).
- Store.MovieStore.AddNewMovie: requires the category to lie in 0..5. On an
  empty staging tree `add_new_movie` accepts any category (Movie.c:165-173);
  on a non-empty one `newMovieExistsInCategoryArray` indexes `categoryArray`
  with it unchecked (Movie.c:929-930). An out-of-range tag accepted on an
  empty tree is used as an index only later, by `DistributeMovie`
  (Movie.c:876-877).
- Store.MovieStore.RegisterUser: requires a non-negative identifier, because
  a negative one can hash to a negative bucket (`Users.HashNegative`). The
  other user operations require the same.
- Store.MovieStore.constructor: requires 0 <= a, 0 <= b, 0 < p and
  0 < m <= hashtable_size. The source reads these globals from its driver,
  which is not part of this model.
- Store.MovieStore.FilterMovies: the `float` threshold is the rational
  tn/td with td > 0.
  - The `userID` argument is only printed, so it is not a parameter.
  - A movie nobody has rated never passes (0/0 is not a number in floating
    point).
  - The printed means are left out.
  - The mean compared against the threshold is computed in `float`
    (Movie.c:1316-1317); the model compares exact rationals, so float
    rounding of the mean and of the threshold is not modelled.
- Ranking.AvgKey: the float quotient converted to `int` is modelled as the
  integer quotient truncated toward zero. Float rounding is not modelled.
- Integer overflow. C `int` overflow in `a*x + b`, in `sumScore` and in the
  counters is not modelled: integers are unbounded.
- Pointers and sharing. Trees and chains are values: a pointer update is a
  replacement of the value at a path.
  - The history's `parent` links are not kept.
  - The chain tail walk of `register_user` is an append to a sequence.
  - Aliasing between the user found by `userFind` and the table entry is
    replaced by writing the updated user back at its position.
- The shared sentinel is `Nil`. A real node with identifier -1 is kept
  distinct from it, because the descents and walks treat the two differently.
- `search_movie` (Movie.c:439), `filter_movies` (Movie.c:346) and
  `getNumberOfMovies` (Movie.c:1335) check `categoryArray[category] == NULL`;
  `editeMovie`, `DistributeMovie` and `newMovieExistsInCategoryArray` do not.
  After initialisation the entries are never NULL, so those checks are not
  modelled.
- `Movie.h` holds declarations only. Its structs shape the datatypes.
