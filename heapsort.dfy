/** In-place binary-heap sort on the first `d` slots of an array: build a
    max-heap by sifting down from the last parent to the root, then
    repeatedly swap the root with the last slot of the heap and sift the new
    root down in the shrunken heap. The result is ascending. The elements are
    compared through `key`: heapSort.c sorts integers by their value, the
    ranking of the catalogue sorts movie records by their average score. */
module HeapSort {

  /** Every parent slot p with lo <= p has a key at least that of each of its
      children inside [0, n). */
  ghost predicate HeapFrom<T>(s: seq<T>, n: int, lo: int, key: T -> int)
    requires 0 <= n <= |s|
  {
    forall p, c :: 0 < c < n && p == (c - 1) / 2 && lo <= p ==> key(s[p]) >= key(s[c])
  }

  /** The heap property for the parents at least lo, except possibly at slot i
      itself; and i's parent (when it is in range) dominates i's children, so
      that whatever rises into slot i stays below it. */
  ghost predicate HeapExcept<T>(s: seq<T>, n: int, lo: int, i: int, key: T -> int)
    requires 0 <= n <= |s|
  {
    (forall p, c :: 0 < c < n && p == (c - 1) / 2 && lo <= p && p != i ==> key(s[p]) >= key(s[c])) &&
    (0 < i && lo <= (i - 1) / 2 ==>
       forall c :: 0 < c < n && (c - 1) / 2 == i ==> key(s[(i - 1) / 2]) >= key(s[c]))
  }

  ghost predicate SortedBy<T>(s: seq<T>, key: T -> int)
  {
    forall i, j :: 0 <= i < j < |s| ==> key(s[i]) <= key(s[j])
  }

  /** heapify(A, d, i): sift the element at slot i down inside [0, d). */
  method Heapify<T>(a: array<T>, d: int, i: int, key: T -> int, ghost lo: int)
    requires 0 <= lo <= i < d <= a.Length
    requires HeapExcept(a[..], d, lo, i, key)
    modifies a
    ensures HeapFrom(a[..], d, lo, key)
    ensures multiset(a[..d]) == old(multiset(a[..d]))
    ensures a[d..] == old(a[d..])
    decreases d - i
  {
    var largest := i;
    var left, right := 2 * i + 1, 2 * i + 2;
    if left < d && key(a[left]) > key(a[i]) {
      largest := left;
    }
    if right < d && key(a[right]) > key(a[largest]) {
      largest := right;
    }
    forall c | 0 < c < d && (c - 1) / 2 == i
      ensures key(a[largest]) >= key(a[c])
    {
      assert c == left || c == right;
    }
    if largest != i {
      ghost var s := a[..];
      a[i], a[largest] := a[largest], a[i];
      SwapDown(s, a[..], d, lo, i, largest, key);
      SwapPermutes(s, a[..], d, i, largest);
      Heapify(a, d, largest, key, lo);
    }
  }

  /** Swapping slot i with its larger child repairs slot i and moves the
      possible fault down to that child. */
  lemma SwapDown<T>(s: seq<T>, s': seq<T>, d: int, lo: int, i: int, largest: int, key: T -> int)
    requires 0 <= lo <= i < largest < d <= |s|
    requires largest == 2 * i + 1 || largest == 2 * i + 2
    requires HeapExcept(s, d, lo, i, key)
    requires key(s[largest]) >= key(s[i])
    requires forall c :: 0 < c < d && (c - 1) / 2 == i ==> key(s[largest]) >= key(s[c])
    requires s' == s[i := s[largest]][largest := s[i]]
    ensures HeapExcept(s', d, lo, largest, key)
  {
    forall p, c | 0 < c < d && p == (c - 1) / 2 && lo <= p && p != largest
      ensures key(s'[p]) >= key(s'[c])
    {
      if p == i {
        assert c == 2 * i + 1 || c == 2 * i + 2;
      } else if c == i {
        assert p == (i - 1) / 2;
      }
    }
  }

  lemma SwapPermutes<T>(s: seq<T>, s': seq<T>, d: int, i: int, j: int)
    requires 0 <= i < d && 0 <= j < d && d <= |s|
    requires s' == s[i := s[j]][j := s[i]]
    ensures multiset(s'[..d]) == multiset(s[..d])
    ensures s'[d..] == s[d..]
  {
    assert s'[..d] == s[..d][i := s[j]][j := s[i]];
  }

  /** In a heap the root holds a largest key. */
  lemma {:induction false} RootIsMax<T>(s: seq<T>, n: int, key: T -> int, x: int)
    requires 0 <= x < n <= |s| && HeapFrom(s, n, 0, key)
    ensures key(s[0]) >= key(s[x])
    decreases x
  {
    if x > 0 {
      RootIsMax(s, n, key, (x - 1) / 2);
    }
  }

  /** A bound on every key survives a permutation. */
  lemma BoundedPerm<T>(s: seq<T>, s': seq<T>, bound: int, key: T -> int)
    requires multiset(s) == multiset(s')
    requires forall j :: 0 <= j < |s| ==> key(s[j]) <= bound
    ensures forall j :: 0 <= j < |s'| ==> key(s'[j]) <= bound
  {
    forall j | 0 <= j < |s'| ensures key(s'[j]) <= bound {
      assert s'[j] in multiset(s');
      var k :| 0 <= k < |s| && s[k] == s'[j];
    }
  }

  /** The first loop of heapSort: heapify every parent slot, last first. */
  method BuildHeap<T>(a: array<T>, d: int, key: T -> int)
    requires 0 <= d <= a.Length
    modifies a
    ensures HeapFrom(a[..], d, 0, key)
    ensures multiset(a[..d]) == old(multiset(a[..d]))
    ensures a[d..] == old(a[d..])
  {
    var i := d / 2 - 1;
    while i >= 0
      invariant -1 <= i <= d / 2 - 1
      invariant HeapFrom(a[..], d, i + 1, key)
      invariant multiset(a[..d]) == old(multiset(a[..d]))
      invariant a[d..] == old(a[d..])
    {
      Heapify(a, d, i, key, i);
      i := i - 1;
    }
  }

  /** heapSort(A, d). */
  method Sort<T>(a: array<T>, d: int, key: T -> int)
    requires 0 <= d <= a.Length
    modifies a
    ensures SortedBy(a[..d], key)
    ensures multiset(a[..d]) == old(multiset(a[..d]))
    ensures a[d..] == old(a[d..])
  {
    BuildHeap(a, d, key);
    if d == 0 {
      return;
    }
    var i := d - 1;
    while i > 0
      invariant 0 <= i < d
      invariant HeapFrom(a[..], i + 1, 0, key)
      invariant Split(a[..], i + 1, d, key)
      invariant multiset(a[..d]) == old(multiset(a[..d]))
      invariant a[d..] == old(a[d..])
    {
      ExtractStep(a, i, d, key);
      i := i - 1;
    }
    SplitSorted(a[..], d, key);
  }

  /** One iteration of heapSort's second loop: swap the root with slot i and
      sift the new root down inside [0, i). */
  method ExtractStep<T>(a: array<T>, i: int, d: int, key: T -> int)
    requires 0 < i < d <= a.Length
    requires HeapFrom(a[..], i + 1, 0, key) && Split(a[..], i + 1, d, key)
    modifies a
    ensures HeapFrom(a[..], i, 0, key) && Split(a[..], i, d, key)
    ensures multiset(a[..d]) == old(multiset(a[..d]))
    ensures a[d..] == old(a[d..])
  {
    ghost var s := a[..];
    a[0], a[i] := a[i], a[0];
    ghost var s' := a[..];
    ExtractMax(s, s', i, d, key);
    Heapify(a, i, 0, key, 0);
    assert a[d..] == a[i..][d - i..] && s'[d..] == s'[i..][d - i..];
    SiftKeepsSplit(s', a[..], i, d, key);
  }

  /** The slots from `i` on are in ascending order and none is below any
      slot before `i`. */
  ghost predicate Split<T>(s: seq<T>, i: int, d: int, key: T -> int)
    requires 0 <= i <= d <= |s|
  {
    (forall x, y :: 0 <= x < i <= y < d ==> key(s[x]) <= key(s[y])) &&
    (forall x, y :: i <= x < y < d ==> key(s[x]) <= key(s[y]))
  }

  /** Swapping the root of the heap [0, i] with its last slot puts a largest
      key at i and leaves the rest a heap except at the root. */
  lemma ExtractMax<T>(s: seq<T>, s': seq<T>, i: int, d: int, key: T -> int)
    requires 0 < i < d <= |s|
    requires HeapFrom(s, i + 1, 0, key) && Split(s, i + 1, d, key)
    requires s' == s[0 := s[i]][i := s[0]]
    ensures HeapExcept(s', i, 0, 0, key)
    ensures Split(s', i, d, key)
    ensures multiset(s'[..d]) == multiset(s[..d]) && s'[d..] == s[d..]
  {
    forall x | 0 <= x <= i ensures key(s[0]) >= key(s[x]) {
      RootIsMax(s, i + 1, key, x);
    }
    SwapPermutes(s, s', d, 0, i);
  }

  /** Sifting inside [0, i) permutes that prefix only, so the split stays. */
  lemma SiftKeepsSplit<T>(s': seq<T>, s'': seq<T>, i: int, d: int, key: T -> int)
    requires 0 < i < d <= |s'| == |s''|
    requires Split(s', i, d, key)
    requires multiset(s''[..i]) == multiset(s'[..i]) && s''[i..] == s'[i..]
    ensures Split(s'', i, d, key)
    ensures multiset(s''[..d]) == multiset(s'[..d])
  {
    forall y | i <= y < d ensures forall x :: 0 <= x < i ==> key(s''[x]) <= key(s''[y]) {
      assert s''[y] == s'[i..][y - i] == s'[y];
      assert forall x :: 0 <= x < i ==> key(s'[..i][x]) <= key(s'[y]);
      BoundedPerm(s'[..i], s''[..i], key(s'[y]), key);
      assert forall x :: 0 <= x < i ==> s''[x] == s''[..i][x];
    }
    forall x, y | i <= x < y < d ensures key(s''[x]) <= key(s''[y]) {
      assert s''[x] == s'[i..][x - i] && s''[y] == s'[i..][y - i];
    }
    assert s''[..d] == s''[..i] + s''[i..d];
    assert s'[..d] == s'[..i] + s'[i..d];
    assert s''[i..d] == s'[i..d];
  }

  lemma SplitSorted<T>(s: seq<T>, d: int, key: T -> int)
    requires 0 <= d <= |s|
    requires d > 0 ==> Split(s, 1, d, key)
    ensures SortedBy(s[..d], key)
  {
  }

  /** heapSort.c on `int A[]`: the integers are their own keys. */
  method SortInts(a: array<int>, d: int)
    requires 0 <= d <= a.Length
    modifies a
    ensures forall i, j :: 0 <= i < j < d ==> a[i] <= a[j]
    ensures multiset(a[..d]) == old(multiset(a[..d]))
    ensures a[d..] == old(a[d..])
    ensures d <= 1 ==> a[..] == old(a[..])
  {
    ghost var before := a[..];
    Sort(a, d, x => x);
    assert forall i, j :: 0 <= i < j < d ==> a[..d][i] <= a[..d][j];
    if d <= 1 {
      assert a[..] == a[..d] + a[d..] && before == before[..d] + before[d..];
      if d == 1 {
        assert a[0] in multiset(a[..1]);
      }
    }
  }

  /** The driver of heapSort.c sorts {1, 2}. */
  method SortPair() returns (r: seq<int>)
    ensures r == [1, 2]
  {
    var a := new int[2];
    a[0], a[1] := 1, 2;
    assert a[..2] == [1, 2];
    SortInts(a, 2);
    r := a[..];
    assert r == a[..2];
    SortedPair(r);
  }

  lemma SortedPair(s: seq<int>)
    requires |s| == 2 && s[0] <= s[1] && multiset(s) == multiset([1, 2])
    ensures s == [1, 2]
  {
    assert s == [s[0], s[1]];
    assert s[0] in multiset([1, 2]) && s[1] in multiset([1, 2]);
    assert 1 in multiset(s) && 2 in multiset(s);
  }
}
