/**
 * The parts of java.util.Collections the automata use: binarySearch over a
 * list in the order of its elements' compareTo, and sort.  binarySearch is
 * modelled on the sequence of comparison results element.compareTo(key),
 * which is all the JDK's search looks at.
 */
module Collections {
  import opened JavaWords

  /**
   * Collections.binarySearch on the comparison results: the index of an
   * element that compares equal, or -(insertion point + 1).
   */
  function Search(cmps: seq<int>, low: int, high: int): (r: int)
    requires 0 <= low <= high + 1 <= |cmps|
    ensures r >= 0 ==> low <= r <= high && cmps[r] == 0
    ensures r < 0 ==> low <= -(r + 1) <= high + 1
    decreases high + 1 - low
  {
    if low > high then -(low + 1)
    else
      var mid := (low + high) / 2;
      if cmps[mid] < 0 then Search(cmps, mid + 1, high)
      else if cmps[mid] > 0 then Search(cmps, low, mid - 1)
      else mid
  }

  /** Comparison results that a sorted list gives: negatives, then zeros, then positives. */
  predicate Partitioned(cmps: seq<int>)
  {
    forall i, j :: 0 <= i < j < |cmps| ==> (cmps[j] < 0 ==> cmps[i] < 0) && (cmps[i] > 0 ==> cmps[j] > 0)
  }

  /** On partitioned results the search misses only when nothing compares equal, and then it names the split. */
  lemma {:induction false} SearchComplete(cmps: seq<int>, low: int, high: int)
    requires 0 <= low <= high + 1 <= |cmps| && Partitioned(cmps)
    requires forall k :: 0 <= k < low ==> cmps[k] < 0
    requires forall k :: high < k < |cmps| ==> cmps[k] > 0
    ensures var r := Search(cmps, low, high);
      r < 0 ==> (forall k :: 0 <= k < -(r + 1) ==> cmps[k] < 0) && (forall k :: -(r + 1) <= k < |cmps| ==> cmps[k] > 0)
    decreases high + 1 - low
  {
    if low <= high {
      var mid := (low + high) / 2;
      if cmps[mid] < 0 {
        SearchComplete(cmps, mid + 1, high);
      } else if cmps[mid] > 0 {
        SearchComplete(cmps, low, mid - 1);
      }
    }
  }

  // ---------------------------------------------------------------------
  // Lists of packed transition words, ordered by Long.compare

  /** Strictly ascending: sorted and free of duplicates. */
  predicate Increasing(xs: seq<Long>)
  {
    forall i, j :: 0 <= i < j < |xs| ==> xs[i] < xs[j]
  }

  /** Ascending with duplicates allowed, as Collections.sort leaves a list. */
  predicate Sorted(xs: seq<Long>)
  {
    forall i, j :: 0 <= i < j < |xs| ==> xs[i] <= xs[j]
  }

  /** element.compareTo(key) for each element: Long.compare of the words. */
  function LongCompares(xs: seq<Long>, key: Long): (r: seq<int>)
    ensures |r| == |xs|
    ensures forall i :: 0 <= i < |xs| ==> r[i] == LongCompare(xs[i], key)
  {
    seq(|xs|, i requires 0 <= i < |xs| => LongCompare(xs[i], key))
  }

  /** Collections.binarySearch(list, key) on a list of words. */
  function BinarySearch(xs: seq<Long>, key: Long): (r: int)
    ensures r >= 0 ==> r < |xs| && xs[r] == key
    ensures r < 0 ==> -(r + 1) <= |xs|
  {
    Search(LongCompares(xs, key), 0, |xs| - 1)
  }

  /** The position binarySearch reports, found or not. */
  function InsertionPoint(xs: seq<Long>, key: Long): (p: nat)
    ensures p <= |xs|
  {
    var r := BinarySearch(xs, key);
    if r < 0 then -(r + 1) else r
  }

  /**
   * On a sorted list binarySearch finds the key exactly when it is present;
   * a miss names the point where everything before is smaller and
   * everything after larger.
   */
  lemma BinarySearchSpec(xs: seq<Long>, key: Long)
    requires Sorted(xs)
    ensures BinarySearch(xs, key) >= 0 <==> key in xs
    ensures var p := InsertionPoint(xs, key);
      BinarySearch(xs, key) < 0 ==> (forall k :: 0 <= k < p ==> xs[k] < key) && (forall k :: p <= k < |xs| ==> xs[k] > key)
  {
    var cmps := LongCompares(xs, key);
    assert Partitioned(cmps);
    SearchComplete(cmps, 0, |xs| - 1);
  }

  /** On a strictly ascending list the insertion point splits smaller from larger-or-equal elements either way. */
  lemma InsertionPointSplits(xs: seq<Long>, key: Long)
    requires Increasing(xs)
    ensures var p := InsertionPoint(xs, key);
      (forall k :: 0 <= k < p ==> xs[k] < key) && (forall k :: p <= k < |xs| ==> xs[k] >= key)
  {
    BinarySearchSpec(xs, key);
  }

  // ---------------------------------------------------------------------
  // Insertion into a strictly ascending list

  /** list.add(p, x) */
  function InsertAt(xs: seq<Long>, p: nat, x: Long): (r: seq<Long>)
    requires p <= |xs|
  {
    xs[..p] + [x] + xs[p..]
  }

  /** addTransition's effect on one list: insert at the search position if absent. */
  function AddIfAbsent(xs: seq<Long>, x: Long): (r: seq<Long>)
  {
    var i := BinarySearch(xs, x);
    if i >= 0 then xs else InsertAt(xs, -(i + 1), x)
  }

  lemma InsertAtMembers(xs: seq<Long>, p: nat, x: Long)
    requires p <= |xs|
    ensures forall y :: y in InsertAt(xs, p, x) <==> y in xs || y == x
  {
    var r := InsertAt(xs, p, x);
    assert r[p] == x;
    forall y | y in xs
      ensures y in r
    {
      var k :| 0 <= k < |xs| && xs[k] == y;
      if k < p {
        assert r[k] == y;
      } else {
        assert r[k + 1] == y;
      }
    }
  }

  /** Inserting a word at the point that splits smaller from larger words keeps the list strictly ascending. */
  lemma InsertAtSpec(xs: seq<Long>, p: nat, x: Long)
    requires Increasing(xs) && p <= |xs|
    requires forall k :: 0 <= k < p ==> xs[k] < x
    requires forall k :: p <= k < |xs| ==> xs[k] > x
    ensures Increasing(InsertAt(xs, p, x))
    ensures forall y :: y in InsertAt(xs, p, x) <==> y in xs || y == x
  {
    var r := InsertAt(xs, p, x);
    assert forall k :: 0 <= k < p ==> r[k] == xs[k];
    assert forall k :: p < k < |r| ==> r[k] == xs[k - 1];
    InsertAtMembers(xs, p, x);
  }

  lemma InsertAtSorted(xs: seq<Long>, p: nat, x: Long)
    requires Sorted(xs) && p <= |xs|
    requires forall k :: 0 <= k < p ==> xs[k] < x
    requires forall k :: p <= k < |xs| ==> xs[k] > x
    ensures Sorted(InsertAt(xs, p, x))
  {
    var r := InsertAt(xs, p, x);
    assert forall k :: 0 <= k < p ==> r[k] == xs[k];
    assert forall k :: p < k < |r| ==> r[k] == xs[k - 1];
  }

  /** Adding keeps the list strictly ascending and adds exactly the new word. */
  lemma AddIfAbsentSpec(xs: seq<Long>, x: Long)
    requires Increasing(xs)
    ensures Increasing(AddIfAbsent(xs, x))
    ensures forall y :: y in AddIfAbsent(xs, x) <==> y in xs || y == x
    ensures |AddIfAbsent(xs, x)| == if x in xs then |xs| else |xs| + 1
  {
    BinarySearchSpec(xs, x);
    var i := BinarySearch(xs, x);
    if i < 0 {
      InsertAtSpec(xs, -(i + 1), x);
    }
  }

  /** On a sorted list with duplicates the insertion keeps the order as well. */
  lemma AddIfAbsentSorted(xs: seq<Long>, x: Long)
    requires Sorted(xs)
    ensures Sorted(AddIfAbsent(xs, x))
    ensures forall y :: y in AddIfAbsent(xs, x) <==> y in xs || y == x
  {
    BinarySearchSpec(xs, x);
    var i := BinarySearch(xs, x);
    if i < 0 {
      InsertAtSorted(xs, -(i + 1), x);
      InsertAtMembers(xs, -(i + 1), x);
    }
  }

  /** A slice grown by one element is the old slice followed by that element. */
  lemma SliceExtend(xs: seq<Long>, lo: int, i: int)
    requires 0 <= lo <= i < |xs|
    ensures xs[lo..i + 1] == xs[lo..i] + [xs[i]]
  {
  }

  /** The least member of a non-empty set of longs. */
  ghost function LeastOf(xs: set<Long>): (m: Long)
    requires xs != {}
    ensures m in xs && forall x :: x in xs ==> m <= x
    decreases |xs|
  {
    var y :| y in xs;
    if xs == {y} then
      assert forall x :: x in xs ==> x == y;
      y
    else
      var m := LeastOf(xs - {y});
      assert forall x :: x in xs ==> x == y || x in xs - {y};
      if y < m then y else m
  }

  /** The next key of an ascending (TreeMap) iteration over the keys not yet visited. */
  method PickLeast(xs: set<Long>) returns (m: Long)
    requires xs != {}
    ensures m in xs && forall x :: x in xs ==> m <= x
  {
    ghost var least := LeastOf(xs);
    m :| m in xs && forall x :: x in xs ==> m <= x;
  }

  /** Taking one more member out of the remaining ones moves it to those taken. */
  lemma TakeMember(all: set<Long>, rest: set<Long>, x: Long)
    requires x in rest && rest <= all
    ensures all - (rest - {x}) == (all - rest) + {x}
  {
  }

  /** addTransitions: each word of ys added in turn. */
  function AddAll(xs: seq<Long>, ys: seq<Long>): seq<Long>
    decreases |ys|
  {
    if |ys| == 0 then xs else AddIfAbsent(AddAll(xs, ys[..|ys| - 1]), ys[|ys| - 1])
  }

  lemma {:induction false} AddAllSpec(xs: seq<Long>, ys: seq<Long>)
    requires Increasing(xs)
    ensures Increasing(AddAll(xs, ys))
    ensures forall y :: y in AddAll(xs, ys) <==> y in xs || y in ys
    decreases |ys|
  {
    if |ys| > 0 {
      var init := ys[..|ys| - 1];
      AddAllSpec(xs, init);
      AddIfAbsentSpec(AddAll(xs, init), ys[|ys| - 1]);
      assert ys == init + [ys[|ys| - 1]];
    }
  }

  /** list.remove(i) */
  function RemoveAt(xs: seq<Long>, i: nat): seq<Long>
    requires i < |xs|
  {
    xs[..i] + xs[i + 1..]
  }

  /** Removing from a strictly ascending list removes exactly that word and keeps the order. */
  lemma RemoveAtSpec(xs: seq<Long>, i: nat)
    requires Increasing(xs) && i < |xs|
    ensures Increasing(RemoveAt(xs, i))
    ensures forall y :: y in RemoveAt(xs, i) <==> y in xs && y != xs[i]
    ensures forall k :: 0 <= k < i ==> RemoveAt(xs, i)[k] == xs[k]
    ensures forall k :: i <= k < |xs| - 1 ==> RemoveAt(xs, i)[k] == xs[k + 1]
  {
    var r := RemoveAt(xs, i);
    assert forall k :: 0 <= k < i ==> r[k] == xs[k];
    assert forall k :: i <= k < |r| ==> r[k] == xs[k + 1];
    forall y | y in xs && y != xs[i]
      ensures y in r
    {
      var k :| 0 <= k < |xs| && xs[k] == y;
      if k < i {
        assert r[k] == y;
      } else {
        assert r[k - 1] == y;
      }
    }
  }

  // ---------------------------------------------------------------------
  // Collections.sort: a stable sort, so equal words stay and keep their count

  function Insert(x: Long, xs: seq<Long>): (r: seq<Long>)
    ensures multiset(r) == multiset(xs) + multiset{x}
  {
    if |xs| == 0 then [x]
    else if x <= xs[0] then [x] + xs
    else
      assert xs == [xs[0]] + xs[1..];
      [xs[0]] + Insert(x, xs[1..])
  }

  function Sort(xs: seq<Long>): (r: seq<Long>)
    ensures multiset(r) == multiset(xs)
  {
    if |xs| == 0 then []
    else
      assert xs == xs[..|xs| - 1] + [xs[|xs| - 1]];
      Insert(xs[|xs| - 1], Sort(xs[..|xs| - 1]))
  }

  lemma {:induction false} InsertSorted(x: Long, xs: seq<Long>)
    requires Sorted(xs)
    ensures Sorted(Insert(x, xs))
  {
    if |xs| > 0 && x > xs[0] {
      InsertSorted(x, xs[1..]);
      var t := Insert(x, xs[1..]);
      forall k | 0 <= k < |t|
        ensures xs[0] <= t[k]
      {
        assert t[k] in multiset(t);
        assert t[k] in multiset(xs[1..]) + multiset{x};
        if t[k] != x {
          assert t[k] in xs[1..];
        }
      }
    }
  }

  /** sort yields the same words, duplicates kept, in ascending order. */
  lemma {:induction false} SortSpec(xs: seq<Long>)
    ensures Sorted(Sort(xs)) && multiset(Sort(xs)) == multiset(xs) && |Sort(xs)| == |xs|
  {
    if |xs| > 0 {
      SortSpec(xs[..|xs| - 1]);
      InsertSorted(xs[|xs| - 1], Sort(xs[..|xs| - 1]));
    }
    assert |multiset(Sort(xs))| == |multiset(xs)|;
  }

  /** A list that is already sorted is left as it is. */
  lemma {:induction false} SortSorted(xs: seq<Long>)
    requires Sorted(xs)
    ensures Sort(xs) == xs
  {
    if |xs| > 0 {
      var init := xs[..|xs| - 1];
      SortSorted(init);
      InsertLast(xs[|xs| - 1], init);
      assert init + [xs[|xs| - 1]] == xs;
    }
  }

  lemma {:induction false} InsertLast(x: Long, xs: seq<Long>)
    requires Sorted(xs)
    requires forall k :: 0 <= k < |xs| ==> xs[k] <= x
    ensures Insert(x, xs) == xs + [x]
  {
    if |xs| > 0 {
      if x <= xs[0] {
        InsertEqualFront(x, xs);
      } else {
        InsertLast(x, xs[1..]);
        assert xs == [xs[0]] + xs[1..];
      }
    }
  }

  lemma {:induction false} InsertEqualFront(x: Long, xs: seq<Long>)
    requires Sorted(xs) && |xs| > 0 && x == xs[0]
    requires forall k :: 0 <= k < |xs| ==> xs[k] <= x
    ensures Insert(x, xs) == xs + [x]
  {
    assert forall k :: 0 <= k < |xs| ==> xs[k] == x;
    assert Insert(x, xs) == [x] + xs;
  }
}
