/**
 * The parts of java.lang.String the transducers rely on: compareTo (the
 * order of TreeMap keys and of sorted symbol lists), startsWith(prefix,
 * offset), and a sort of string lists.  A Java string is a sequence of
 * UTF-16 code units; a Dafny string is a sequence of Unicode scalar
 * values.  The two agree on text from the Basic Multilingual Plane; a
 * character beyond it is one char here and a surrogate pair in Java.
 */
module JStrings {

  /** String.compareTo: the difference of the first differing chars, else the difference of the lengths. */
  function CompareTo(a: string, b: string): int
  {
    if |a| == 0 || |b| == 0 then |a| - |b|
    else if a[0] != b[0] then a[0] as int - b[0] as int
    else CompareTo(a[1..], b[1..])
  }

  /** The lexicographic order that compareTo decides. */
  predicate Less(a: string, b: string)
  {
    if |b| == 0 then false
    else if |a| == 0 then true
    else if a[0] != b[0] then a[0] < b[0]
    else Less(a[1..], b[1..])
  }

  predicate LessEq(a: string, b: string)
  {
    a == b || Less(a, b)
  }

  /** s.startsWith(p, start): false for an offset outside the string, otherwise a match of p at start. */
  predicate StartsWithAt(s: string, p: string, start: int)
  {
    0 <= start && start + |p| <= |s| && s[start..start + |p|] == p
  }

  predicate IsPrefix(p: string, s: string)
  {
    |p| <= |s| && s[..|p|] == p
  }

  // ---------------------------------------------------------------------
  // compareTo decides Less; Less is a strict total order

  lemma {:induction false} CompareToSign(a: string, b: string)
    ensures CompareTo(a, b) < 0 <==> Less(a, b)
    ensures CompareTo(a, b) == 0 <==> a == b
    ensures CompareTo(a, b) > 0 <==> Less(b, a)
  {
    if |a| == 0 || |b| == 0 {
    } else if a[0] != b[0] {
    } else {
      CompareToSign(a[1..], b[1..]);
      if a[1..] == b[1..] {
        assert a == [a[0]] + a[1..] && b == [b[0]] + b[1..];
      }
    }
  }

  lemma {:induction false} LessIrreflexive(a: string)
    ensures !Less(a, a)
  {
    if |a| > 0 {
      LessIrreflexive(a[1..]);
    }
  }

  lemma {:induction false} LessTransitive(a: string, b: string, c: string)
    requires Less(a, b) && Less(b, c)
    ensures Less(a, c)
  {
    if |a| > 0 && a[0] == b[0] && b[0] == c[0] {
      LessTransitive(a[1..], b[1..], c[1..]);
    }
  }

  lemma {:induction false} LessTotal(a: string, b: string)
    ensures a == b || Less(a, b) || Less(b, a)
  {
    if |a| > 0 && |b| > 0 && a[0] == b[0] {
      LessTotal(a[1..], b[1..]);
      if a[1..] == b[1..] {
        assert a == [a[0]] + a[1..] && b == [b[0]] + b[1..];
      }
    }
  }

  lemma LessAsymmetric(a: string, b: string)
    requires Less(a, b)
    ensures !Less(b, a) && a != b
  {
    LessIrreflexive(a);
    if Less(b, a) {
      LessTransitive(a, b, a);
    }
  }

  /** A proper prefix comes first. */
  lemma {:induction false} PrefixLess(p: string, s: string)
    requires IsPrefix(p, s) && |p| < |s|
    ensures Less(p, s)
  {
    if |p| > 0 {
      assert p[0] == s[0];
      assert IsPrefix(p[1..], s[1..]) by {
        assert s[1..][..|p| - 1] == s[..|p|][1..];
      }
      PrefixLess(p[1..], s[1..]);
    }
  }

  /** Two prefixes of the same string are ordered by their length. */
  lemma PrefixesByLength(p: string, q: string, s: string)
    requires IsPrefix(p, s) && IsPrefix(q, s)
    ensures Less(p, q) <==> |p| < |q|
  {
    if |p| < |q| {
      assert IsPrefix(p, q) by {
        assert q[..|p|] == s[..|q|][..|p|];
      }
      PrefixLess(p, q);
    } else {
      if |q| < |p| {
        assert IsPrefix(q, p) by {
          assert p[..|q|] == s[..|p|][..|q|];
        }
        PrefixLess(q, p);
        LessAsymmetric(q, p);
      } else {
        assert p == s[..|p|] == q;
        LessIrreflexive(p);
      }
    }
  }

  lemma StartsWithAtPrefix(s: string, p: string, start: int)
    requires 0 <= start <= |s|
    ensures StartsWithAt(s, p, start) <==> IsPrefix(p, s[start..])
  {
    if start + |p| <= |s| {
      assert s[start..][..|p|] == s[start..start + |p|];
    }
  }

  // ---------------------------------------------------------------------
  // Sorting string lists

  predicate Ascending(xs: seq<string>)
  {
    forall i, j :: 0 <= i < j < |xs| ==> Less(xs[i], xs[j])
  }

  predicate NonDescending(xs: seq<string>)
  {
    forall i, j :: 0 <= i < j < |xs| ==> LessEq(xs[i], xs[j])
  }

  /** Insert x in front of the first element it is less than. */
  function Insert(x: string, xs: seq<string>): (r: seq<string>)
    ensures multiset(r) == multiset(xs) + multiset{x}
  {
    if |xs| == 0 then [x]
    else if Less(x, xs[0]) then [x] + xs
    else
      assert xs == [xs[0]] + xs[1..];
      [xs[0]] + Insert(x, xs[1..])
  }

  /** The list in compareTo order, as Collections.sort or a TreeMap's key order gives it. */
  function Sort(xs: seq<string>): (r: seq<string>)
    ensures multiset(r) == multiset(xs)
  {
    if |xs| == 0 then []
    else
      assert xs == xs[..|xs| - 1] + [xs[|xs| - 1]];
      Insert(xs[|xs| - 1], Sort(xs[..|xs| - 1]))
  }

  /** Every element of Insert(x, xs) is x or an element of xs. */
  lemma {:induction false} InsertMembers(x: string, xs: seq<string>)
    ensures forall k :: 0 <= k < |Insert(x, xs)| ==> Insert(x, xs)[k] == x || Insert(x, xs)[k] in xs
  {
    if |xs| > 0 && !Less(x, xs[0]) {
      InsertMembers(x, xs[1..]);
      var t := Insert(x, xs[1..]);
      forall k | 0 <= k < |t|
        ensures t[k] == x || t[k] in xs
      {
        if t[k] != x {
          assert t[k] in xs[1..];
        }
      }
    }
  }

  /** The head of a non-descending list is at most each of its elements. */
  lemma HeadLeast(xs: seq<string>)
    requires NonDescending(xs) && |xs| > 0
    ensures forall y :: y in xs ==> LessEq(xs[0], y)
  {
    forall y | y in xs
      ensures LessEq(xs[0], y)
    {
      var j :| 0 <= j < |xs| && xs[j] == y;
      if j > 0 {
        assert LessEq(xs[0], xs[j]);
      }
    }
  }

  /** A non-descending list stays so with a head at most each of its elements. */
  lemma ConsSorted(h: string, t: seq<string>)
    requires NonDescending(t) && forall k :: 0 <= k < |t| ==> LessEq(h, t[k])
    ensures NonDescending([h] + t)
  {
    var r := [h] + t;
    forall i, j | 0 <= i < j < |r|
      ensures LessEq(r[i], r[j])
    {
      if i > 0 {
        assert r[i] == t[i - 1] && r[j] == t[j - 1];
      } else {
        assert r[j] == t[j - 1];
      }
    }
  }

  lemma {:induction false} InsertSorted(x: string, xs: seq<string>)
    requires NonDescending(xs)
    ensures NonDescending(Insert(x, xs))
  {
    if |xs| > 0 && !Less(x, xs[0]) {
      InsertSorted(x, xs[1..]);
      InsertMembers(x, xs[1..]);
      HeadLeast(xs);
      LessTotal(x, xs[0]);
      var t := Insert(x, xs[1..]);
      forall k | 0 <= k < |t|
        ensures LessEq(xs[0], t[k])
      {
        if t[k] != x {
          assert t[k] in xs;
        }
      }
      ConsSorted(xs[0], t);
    } else if |xs| > 0 {
      HeadLeast(xs);
      forall k | 0 <= k < |xs|
        ensures LessEq(x, xs[k])
      {
        assert LessEq(xs[0], xs[k]);
        if xs[0] != xs[k] {
          LessTransitive(x, xs[0], xs[k]);
        }
      }
      ConsSorted(x, xs);
    }
  }


  /** Sort yields the same strings in non-descending compareTo order. */
  lemma {:induction false} SortSorted(xs: seq<string>)
    ensures NonDescending(Sort(xs)) && multiset(Sort(xs)) == multiset(xs)
  {
    if |xs| > 0 {
      SortSorted(xs[..|xs| - 1]);
      InsertSorted(xs[|xs| - 1], Sort(xs[..|xs| - 1]));
    }
  }

  /** Sorting distinct strings yields a strictly ascending list. */
  lemma SortDistinct(xs: seq<string>)
    requires forall i, j :: 0 <= i < j < |xs| ==> xs[i] != xs[j]
    ensures Ascending(Sort(xs))
  {
    SortSorted(xs);
    var r := Sort(xs);
    forall i, j | 0 <= i < j < |r|
      ensures Less(r[i], r[j])
    {
      if r[i] == r[j] {
        DistinctCount(xs, r[i]);
        assert multiset(r)[r[i]] >= 2 by {
          TwiceCounted(r, i, j);
        }
      }
    }
  }

  lemma TwiceCounted(r: seq<string>, i: int, j: int)
    requires 0 <= i < j < |r| && r[i] == r[j]
    ensures multiset(r)[r[i]] >= 2
  {
    assert r == r[..j] + [r[j]] + r[j + 1..];
    assert r[..j] == r[..i] + [r[i]] + r[i + 1..j];
    assert multiset(r) == multiset(r[..i]) + multiset{r[i]} + multiset(r[i + 1..j]) + multiset{r[j]} + multiset(r[j + 1..]);
  }

  lemma {:induction false} DistinctCount(xs: seq<string>, x: string)
    requires forall i, j :: 0 <= i < j < |xs| ==> xs[i] != xs[j]
    ensures multiset(xs)[x] <= 1
  {
    if |xs| > 0 {
      assert xs == [xs[0]] + xs[1..];
      DistinctCount(xs[1..], x);
      if xs[0] == x {
        assert x !in xs[1..];
      }
    }
  }
}

/** A Java reference that may be null. */
module Options {
  datatype Option<T> = None | Some(value: T)
}
